/**
 * The `.env` serialiser of the installer's `POST /save` handler.
 *
 * The handler spreads the JSON request body into a fresh object, forces
 * `DATA_DIR` to `./data`, formats every entry as `KEY="VALUE"` with each
 * double quote of the value escaped as `\"`, joins the lines with `\n` and
 * writes them followed by one `\n`. An object is modelled by its entries in
 * the order `Object.entries` lists them.
 */
module EnvWriter {

  import opened Wrappers

  /**
   * A JSON value of the request body. Only strings can be formatted:
   * `value.replace` throws on every other value.
   */
  datatype Value = Str(text: string) | NonString

  datatype Entry = Entry(key: string, value: Value)

  const DataDirKey: string := "DATA_DIR"
  const DataDirValue: string := "./data"
  const DataDirEntry: Entry := Entry(DataDirKey, Str(DataDirValue))

  // ---------------------------------------------------------------------------
  // JavaScript property order
  // ---------------------------------------------------------------------------

  predicate IsDigit(c: char) { '0' <= c <= '9' }

  predicate AllDigits(s: string) { forall i :: 0 <= i < |s| ==> IsDigit(s[i]) }

  /** The number a string of decimal digits denotes. */
  function DecimalValue(s: string): nat
    requires AllDigits(s)
  {
    if s == [] then 0 else DecimalValue(s[..|s| - 1]) * 10 + (s[|s| - 1] as int - '0' as int)
  }

  /**
   * An array index: the canonical decimal form of an integer below 2^32 - 1.
   * An ordinary object lists such keys before all others, in ascending order.
   */
  predicate IsArrayIndex(k: string) {
    && |k| > 0
    && AllDigits(k)
    && (k[0] != '0' || |k| == 1)
    && DecimalValue(k) < 0xFFFF_FFFF
  }

  predicate DistinctKeys(s: seq<Entry>) {
    forall i, j :: 0 <= i < j < |s| ==> s[i].key != s[j].key
  }

  /** Array-index keys come first, in ascending numeric order. */
  predicate PropertyOrdered(s: seq<Entry>) {
    forall i, j :: 0 <= i < j < |s| && IsArrayIndex(s[j].key) ==>
      IsArrayIndex(s[i].key) && DecimalValue(s[i].key) < DecimalValue(s[j].key)
  }

  /** `s` is what `Object.entries` returns for some object. */
  predicate IsObjectEntries(s: seq<Entry>) {
    DistinctKeys(s) && PropertyOrdered(s)
  }

  predicate HasKey(s: seq<Entry>, k: string) {
    exists i :: 0 <= i < |s| && s[i].key == k
  }

  // ---------------------------------------------------------------------------
  // Merge: { ...body, DATA_DIR: './data' }
  // ---------------------------------------------------------------------------

  /** Redefines an existing `DATA_DIR` property; it keeps its position. */
  function SetDataDir(s: seq<Entry>): seq<Entry> {
    if s == [] then []
    else [if s[0].key == DataDirKey then DataDirEntry else s[0]] + SetDataDir(s[1..])
  }

  /**
   * The object `{ ...body, DATA_DIR: './data' }`: an existing `DATA_DIR` is
   * overwritten where it stands, a missing one is added as the last property.
   */
  function Merge(body: seq<Entry>): seq<Entry> {
    if HasKey(body, DataDirKey) then SetDataDir(body) else body + [DataDirEntry]
  }

  /** The merged object is again an object: distinct keys, in property order. */
  lemma MergeObjectEntries(body: seq<Entry>)
    ensures DistinctKeys(body) ==> DistinctKeys(Merge(body))
    ensures PropertyOrdered(body) ==> PropertyOrdered(Merge(body))
  {
    if HasKey(body, DataDirKey) {
      SetDataDirKeepsKeys(body);
    }
  }

  lemma {:induction false} SetDataDirKeepsKeys(s: seq<Entry>)
    ensures |SetDataDir(s)| == |s|
    ensures forall i :: 0 <= i < |s| ==> SetDataDir(s)[i].key == s[i].key
    ensures forall i :: 0 <= i < |s| ==>
      SetDataDir(s)[i] == if s[i].key == DataDirKey then DataDirEntry else s[i]
  {
    if s != [] {
      SetDataDirKeepsKeys(s[1..]);
    }
  }

  /** The entries whose key is not `DATA_DIR`, in order. */
  function Others(s: seq<Entry>): (r: seq<Entry>)
    ensures forall i :: 0 <= i < |r| ==> r[i].key != DataDirKey
  {
    if s == [] then []
    else if s[0].key == DataDirKey then Others(s[1..])
    else [s[0]] + Others(s[1..])
  }

  lemma {:induction false} OthersAppend(a: seq<Entry>, b: seq<Entry>)
    ensures Others(a + b) == Others(a) + Others(b)
  {
    if a == [] {
      assert a + b == b;
    } else {
      assert (a + b)[1..] == a[1..] + b;
      OthersAppend(a[1..], b);
    }
  }

  lemma {:induction false} OthersSetDataDir(s: seq<Entry>)
    ensures Others(SetDataDir(s)) == Others(s)
  {
    if s != [] {
      var head := if s[0].key == DataDirKey then DataDirEntry else s[0];
      assert SetDataDir(s) == [head] + SetDataDir(s[1..]);
      OthersAppend([head], SetDataDir(s[1..]));
      OthersSetDataDir(s[1..]);
      assert s == [s[0]] + s[1..];
      OthersAppend([s[0]], s[1..]);
    }
  }

  /** Override: the merged record holds `DATA_DIR` exactly once, as `./data`. */
  lemma MergeOverride(body: seq<Entry>)
    requires DistinctKeys(body)
    ensures exists j :: 0 <= j < |Merge(body)| && Merge(body)[j] == DataDirEntry
    ensures forall i, j ::
      (0 <= i < |Merge(body)| && 0 <= j < |Merge(body)| &&
       Merge(body)[i].key == DataDirKey && Merge(body)[j].key == DataDirKey) ==> i == j
  {
    var merged := Merge(body);
    MergeObjectEntries(body);
    if HasKey(body, DataDirKey) {
      SetDataDirKeepsKeys(body);
      var j :| 0 <= j < |body| && body[j].key == DataDirKey;
      assert merged[j] == DataDirEntry;
    } else {
      assert merged[|body|] == DataDirEntry;
    }
  }

  /** Order: the other entries keep their values and their relative order. */
  lemma MergeKeepsOthers(body: seq<Entry>)
    ensures Others(Merge(body)) == Others(body)
  {
    if HasKey(body, DataDirKey) {
      OthersSetDataDir(body);
    } else {
      OthersAppend(body, [DataDirEntry]);
      assert Others([DataDirEntry]) == [];
      assert Others(body) + [] == Others(body);
    }
  }

  /**
   * Position: a `DATA_DIR` the body holds stays where it was and every other
   * entry stays at its index; a missing one becomes the last entry.
   */
  lemma MergePosition(body: seq<Entry>)
    ensures HasKey(body, DataDirKey) ==>
      |Merge(body)| == |body| &&
      forall i :: 0 <= i < |body| ==>
        Merge(body)[i] == if body[i].key == DataDirKey then DataDirEntry else body[i]
    ensures !HasKey(body, DataDirKey) ==>
      Merge(body)[..|body|] == body && |Merge(body)| == |body| + 1 &&
      Merge(body)[|body|] == DataDirEntry
  {
    if HasKey(body, DataDirKey) {
      SetDataDirKeepsKeys(body);
    }
  }

  // ---------------------------------------------------------------------------
  // Escaping: value.replace(/"/g, '\\"')
  // ---------------------------------------------------------------------------

  function EscapeChar(c: char): string {
    if c == '"' then ['\\', '"'] else [c]
  }

  /** Every `"` becomes `\"`; every other character, backslashes included, is kept. */
  function Escape(v: string): string {
    if v == [] then [] else EscapeChar(v[0]) + Escape(v[1..])
  }

  lemma {:induction false} EscapeAppend(a: string, b: string)
    ensures Escape(a + b) == Escape(a) + Escape(b)
  {
    if a == [] {
      assert a + b == b;
    } else {
      assert (a + b)[1..] == a[1..] + b;
      EscapeAppend(a[1..], b);
    }
  }

  /** A value without double quotes is written as it is. */
  lemma {:induction false} EscapeNoQuote(v: string)
    requires '"' !in v
    ensures Escape(v) == v
  {
    if v != [] {
      assert '"' !in v[1..] by { assert forall c :: c in v[1..] ==> c in v; }
      EscapeNoQuote(v[1..]);
    }
  }

  /** Escaping adds exactly one character per double quote. */
  lemma {:induction false} EscapeLength(v: string)
    ensures |Escape(v)| == |v| + multiset(v)['"']
  {
    if v != [] {
      EscapeLength(v[1..]);
      assert v == [v[0]] + v[1..];
      assert multiset(v) == multiset([v[0]]) + multiset(v[1..]);
    }
  }

  /** Every double quote of an escaped value directly follows a backslash. */
  lemma {:induction false} EscapeQuotesPreceded(v: string)
    ensures forall i :: 0 <= i < |Escape(v)| && Escape(v)[i] == '"' ==>
      0 < i && Escape(v)[i - 1] == '\\'
  {
    if v != [] {
      EscapeQuotesPreceded(v[1..]);
      var h, t := EscapeChar(v[0]), Escape(v[1..]);
      assert Escape(v) == h + t;
      forall i | 0 <= i < |h + t| && (h + t)[i] == '"'
        ensures 0 < i && (h + t)[i - 1] == '\\'
      {
        if i >= |h| {
          assert t[i - |h|] == '"';
        }
      }
    }
  }

  /** A newline occurs in the escaped value exactly when it occurs in the value. */
  lemma {:induction false} EscapeNewlines(v: string)
    ensures '\n' in Escape(v) <==> '\n' in v
  {
    if v != [] {
      EscapeNewlines(v[1..]);
      assert v == [v[0]] + v[1..];
      assert Escape(v) == EscapeChar(v[0]) + Escape(v[1..]);
    }
  }

  // ---------------------------------------------------------------------------
  // Lines and file content
  // ---------------------------------------------------------------------------

  /** The line `KEY="VALUE"` for one entry with a string value. */
  function FormatLine(e: Entry): string
    requires e.value.Str?
  {
    e.key + "=\"" + Escape(e.value.text) + "\""
  }

  predicate StringValues(s: seq<Entry>) {
    forall i :: 0 <= i < |s| ==> s[i].value.Str?
  }

  /** `Object.entries(envData).map(...)`: one line per entry, in order. */
  function Lines(entries: seq<Entry>): seq<string>
    requires StringValues(entries)
  {
    seq(|entries|, i requires 0 <= i < |entries| => FormatLine(entries[i]))
  }

  /** `lines.join('\n')`. */
  function Join(lines: seq<string>): string {
    if |lines| == 0 then ""
    else if |lines| == 1 then lines[0]
    else lines[0] + "\n" + Join(lines[1..])
  }

  /** A non-empty join ends with the last line. */
  lemma {:induction false} JoinEndsWithLast(lines: seq<string>)
    requires |lines| > 0
    ensures |Join(lines)| >= |lines[|lines| - 1]|
    ensures Join(lines)[|Join(lines)| - |lines[|lines| - 1]|..] == lines[|lines| - 1]
  {
    if |lines| > 1 {
      JoinEndsWithLast(lines[1..]);
      var rest := Join(lines[1..]);
      var last := lines[|lines| - 1];
      assert lines[1..][|lines| - 2] == last;
      var pre := lines[0] + "\n";
      assert Join(lines) == pre + rest;
      assert (pre + rest)[|pre + rest| - |last|..] == rest[|rest| - |last|..];
    }
  }

  /**
   * Formatting succeeds exactly when every body entry other than `DATA_DIR`
   * holds a string: a non-string `DATA_DIR` is overwritten before formatting.
   */
  lemma MergeStringValues(body: seq<Entry>)
    ensures StringValues(Merge(body)) <==>
      forall i :: 0 <= i < |body| && body[i].key != DataDirKey ==> body[i].value.Str?
  {
    var merged := Merge(body);
    MergePosition(body);
    if StringValues(merged) {
      forall i | 0 <= i < |body| && body[i].key != DataDirKey ensures body[i].value.Str? {
        assert merged[i] == body[i];
      }
    }
  }

  /**
   * The text written to `../.env`: the lines joined by `\n` plus one `\n`.
   * It is never empty, and the final `\n` closes the quoted value of the last
   * line, so the content does not end with a blank line. `None` stands for
   * the `TypeError` that `value.replace` throws on a non-string value; it is
   * raised outside the `try`, so nothing is written.
   */
  function Serialize(body: seq<Entry>): (r: Option<string>)
    requires IsObjectEntries(body)
    ensures r.Some? <==>
      forall i :: 0 <= i < |body| && body[i].key != DataDirKey ==> body[i].value.Str?
    ensures r.Some? ==>
      |r.value| >= 2 && r.value[|r.value| - 1] == '\n' && r.value[|r.value| - 2] == '"'
  {
    var merged := Merge(body);
    MergeStringValues(body);
    if StringValues(merged) then
      var lines := Lines(merged);
      MergeOverride(body);
      JoinEndsWithLast(lines);
      Some(Join(lines) + "\n")
    else
      None
  }
}
