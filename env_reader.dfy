/**
 * A reader for the `.env` content the serialiser writes. It is the inverse
 * the serialiser's format admits: split at `\n`, split each line at its
 * first `=`, strip the surrounding quotes and delete the backslash written
 * before every double quote. The round-trip lemmas below are what make the
 * written file faithful to the merged record.
 */
module EnvReader {

  import opened Wrappers
  import opened EnvWriter

  /** Deletes the backslash that immediately precedes each double quote. */
  function Unescape(e: string): string {
    if e == [] then []
    else if |e| >= 2 && e[0] == '\\' && e[1] == '"' then ['"'] + Unescape(e[2..])
    else [e[0]] + Unescape(e[1..])
  }

  /** Escape round trip: unescaping an escaped value gives the value back. */
  lemma {:induction false} EscapeRoundTrip(v: string)
    ensures Unescape(Escape(v)) == v
  {
    if v != [] {
      var t := Escape(v[1..]);
      EscapeRoundTrip(v[1..]);
      assert Escape(v) == EscapeChar(v[0]) + t;
      if v[0] == '"' {
        assert (['\\', '"'] + t)[2..] == t;
      } else {
        EscapeQuotesPreceded(v[1..]);
        assert ([v[0]] + t)[1..] == t;
      }
      assert v == [v[0]] + v[1..];
    }
  }

  /** Different values are written differently. */
  lemma EscapeInjective(v: string, w: string)
    requires Escape(v) == Escape(w)
    ensures v == w
  {
    EscapeRoundTrip(v);
    EscapeRoundTrip(w);
  }

  /** The position of the first `c` in `s`. */
  function IndexOf(s: string, c: char): (r: Option<nat>)
    ensures r.Some? ==> r.value < |s| && s[r.value] == c
    ensures r.Some? ==> forall j :: 0 <= j < r.value ==> s[j] != c
    ensures r.None? ==> forall j :: 0 <= j < |s| ==> s[j] != c
  {
    if s == [] then None
    else if s[0] == c then Some(0)
    else match IndexOf(s[1..], c)
      case None => None
      case Some(i) => Some(i + 1)
  }

  /** Reads one `KEY="VALUE"` line, splitting at its first `=`. */
  function ParseLine(line: string): Option<Entry> {
    match IndexOf(line, '=')
    case None => None
    case Some(i) =>
      var rest := line[i + 1..];
      if |rest| >= 2 && rest[0] == '"' && rest[|rest| - 1] == '"' then
        Some(Entry(line[..i], Str(Unescape(rest[1..|rest| - 1]))))
      else
        None
  }

  /**
   * Line shape: a formatted line reads back as its entry when the key has no
   * `=`. The restriction is this reader's, which splits at the first `=`: the
   * format itself has one reading for every key (see FormatLineInjective).
   */
  lemma FormatLineRoundTrip(e: Entry)
    requires e.value.Str? && '=' !in e.key
    ensures ParseLine(FormatLine(e)) == Some(e)
  {
    var line := FormatLine(e);
    var esc := Escape(e.value.text);
    assert line == e.key + (['=', '"'] + esc + ['"']);
    assert line[|e.key|] == '=';
    assert line[..|e.key|] == e.key;
    assert line[|e.key| + 1..] == ['"'] + esc + ['"'];
    assert (['"'] + esc + ['"'])[1..|esc| + 1] == esc;
    EscapeRoundTrip(e.value.text);
  }

  /**
   * In a formatted line, the only `="` at or after the end of the key that
   * does not end at the closing quote is the separator.
   */
  lemma SeparatorAt(e: Entry, i: nat)
    requires e.value.Str?
    requires |e.key| <= i && i + 2 < |FormatLine(e)|
    requires FormatLine(e)[i] == '=' && FormatLine(e)[i + 1] == '"'
    ensures i == |e.key|
  {
    var line, esc := FormatLine(e), Escape(e.value.text);
    assert line == e.key + (['=', '"'] + esc + ['"']);
    if i > |e.key| {
      var j := i - |e.key| - 1;
      assert esc[j] == line[i + 1];
      assert j > 0 ==> esc[j - 1] == line[i];
      EscapeQuotesPreceded(e.value.text);
    }
  }

  /** Different entries give different lines, whatever their keys hold. */
  lemma FormatLineInjective(a: Entry, b: Entry)
    requires a.value.Str? && b.value.Str?
    requires FormatLine(a) == FormatLine(b)
    ensures a == b
  {
    var line := FormatLine(a);
    var ea, eb := Escape(a.value.text), Escape(b.value.text);
    assert line == a.key + (['=', '"'] + ea + ['"']);
    assert line == b.key + (['=', '"'] + eb + ['"']);
    if |a.key| < |b.key| {
      SeparatorAt(a, |b.key|);
    } else if |b.key| < |a.key| {
      SeparatorAt(b, |a.key|);
    }
    assert a.key == line[..|a.key|] == b.key;
    assert ea == line[|a.key| + 2..|line| - 1] == eb;
    EscapeInjective(a.value.text, b.value.text);
  }

  /** `s.split('\n')`. */
  function SplitLines(s: string): (r: seq<string>)
    ensures |r| > 0
  {
    if s == [] then [[]]
    else
      var rest := SplitLines(s[1..]);
      if s[0] == '\n' then [[]] + rest else [[s[0]] + rest[0]] + rest[1..]
  }

  lemma {:induction false} SplitLinesNoBreak(a: string)
    requires '\n' !in a
    ensures SplitLines(a) == [a]
  {
    if a != [] {
      assert '\n' !in a[1..] by { assert forall c :: c in a[1..] ==> c in a; }
      SplitLinesNoBreak(a[1..]);
      assert [a[0]] + a[1..] == a;
    }
  }

  lemma {:induction false} SplitLinesBreak(a: string, b: string)
    requires '\n' !in a
    ensures SplitLines(a + "\n" + b) == [a] + SplitLines(b)
  {
    if a == [] {
      assert a + "\n" + b == ['\n'] + b;
      assert (['\n'] + b)[1..] == b;
    } else {
      assert (a + "\n" + b)[1..] == a[1..] + "\n" + b;
      assert '\n' !in a[1..] by { assert forall c :: c in a[1..] ==> c in a; }
      SplitLinesBreak(a[1..], b);
      assert [a[0]] + a[1..] == a;
    }
  }

  /** Splitting a join of lines without newlines gives the lines back. */
  lemma {:induction false} SplitJoin(lines: seq<string>)
    requires |lines| > 0
    requires forall i :: 0 <= i < |lines| ==> '\n' !in lines[i]
    ensures SplitLines(Join(lines)) == lines
  {
    if |lines| == 1 {
      SplitLinesNoBreak(lines[0]);
    } else {
      SplitJoin(lines[1..]);
      SplitLinesBreak(lines[0], Join(lines[1..]));
      assert [lines[0]] + lines[1..] == lines;
    }
  }

  function ParseLines(lines: seq<string>): Option<seq<Entry>> {
    if lines == [] then Some([])
    else match ParseLine(lines[0])
      case None => None
      case Some(e) =>
        match ParseLines(lines[1..])
        case None => None
        case Some(rest) => Some([e] + rest)
  }

  /** Reads a whole file: lines terminated by `\n`, each a `KEY="VALUE"` line. */
  function ParseFile(content: string): Option<seq<Entry>> {
    if |content| > 0 && content[|content| - 1] == '\n' then
      ParseLines(SplitLines(content[..|content| - 1]))
    else
      None
  }

  lemma {:induction false} ParseLinesRoundTrip(entries: seq<Entry>)
    requires StringValues(entries)
    requires forall i :: 0 <= i < |entries| ==> '=' !in entries[i].key
    ensures ParseLines(Lines(entries)) == Some(entries)
  {
    if entries != [] {
      assert Lines(entries)[1..] == Lines(entries[1..]);
      ParseLinesRoundTrip(entries[1..]);
      FormatLineRoundTrip(entries[0]);
      assert [entries[0]] + entries[1..] == entries;
    }
  }

  /** Keys without `=` or newline and string values without newline. */
  predicate PlainEntries(s: seq<Entry>) {
    forall i :: 0 <= i < |s| ==>
      '=' !in s[i].key && '\n' !in s[i].key && (s[i].value.Str? ==> '\n' !in s[i].value.text)
  }

  lemma MergePlain(body: seq<Entry>)
    requires PlainEntries(body)
    ensures PlainEntries(Merge(body))
  {
    var merged := Merge(body);
    MergePosition(body);
    assert PlainEntries([DataDirEntry]) by {
      assert forall i :: 0 <= i < |DataDirKey| ==> DataDirKey[i] != '=' && DataDirKey[i] != '\n';
      assert forall i :: 0 <= i < |DataDirValue| ==> DataDirValue[i] != '\n';
    }
    forall i | 0 <= i < |merged|
      ensures '=' !in merged[i].key && '\n' !in merged[i].key &&
        (merged[i].value.Str? ==> '\n' !in merged[i].value.text)
    {
      if i < |body| && merged[i] == body[i] {
      } else {
        assert merged[i] == DataDirEntry;
      }
    }
  }

  /**
   * Output layout: when the content is written at all, and keys and values
   * are plain, the file holds exactly one line per merged entry, in merged
   * order, each terminated by `\n`, and reads back as the merged record.
   */
  lemma SerializeRoundTrip(body: seq<Entry>)
    requires IsObjectEntries(body) && PlainEntries(body)
    ensures Serialize(body).Some? ==> ParseFile(Serialize(body).value) == Some(Merge(body))
  {
    var merged := Merge(body);
    MergeStringValues(body);
    if StringValues(merged) {
      var lines := Lines(merged);
      MergePlain(body);
      MergeOverride(body);
      forall i | 0 <= i < |lines| ensures '\n' !in lines[i] {
        EscapeNewlines(merged[i].value.text);
      }
      SplitJoin(lines);
      var content := Serialize(body).value;
      assert content[..|content| - 1] == Join(lines);
      ParseLinesRoundTrip(merged);
    }
  }
}
