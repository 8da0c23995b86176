/**
 * `getLocalIP`: the LAN address the installer reports on `GET /get-ip` and
 * prints at start-up. The result of `os.networkInterfaces()` is an input:
 * interfaces in the order `Object.keys` lists their names, each with its
 * address entries in order.
 */
module LocalAddress {

  import opened Wrappers

  datatype AddressInfo = AddressInfo(family: string, internal: bool, address: string)

  datatype Interface = Interface(name: string, addresses: seq<AddressInfo>)

  const Fallback: string := "localhost"

  /** The test `iface.family === 'IPv4' && !iface.internal` of `getLocalIP`: an external IPv4 address. */
  predicate IsLanIPv4(a: AddressInfo) {
    a.family == "IPv4" && !a.internal
  }

  predicate NoneLan(s: seq<AddressInfo>) {
    forall i :: 0 <= i < |s| ==> !IsLanIPv4(s[i])
  }

  /** All address entries, in name-then-entry order. */
  function Flatten(ifaces: seq<Interface>): seq<AddressInfo> {
    if ifaces == [] then [] else ifaces[0].addresses + Flatten(ifaces[1..])
  }

  /** The address of the first external IPv4 entry of `s`. */
  function FirstLanAddress(s: seq<AddressInfo>): Option<string> {
    if s == [] then None
    else if IsLanIPv4(s[0]) then Some(s[0].address)
    else FirstLanAddress(s[1..])
  }

  /** The specification of `getLocalIP`. */
  function LocalIP(ifaces: seq<Interface>): string {
    match FirstLanAddress(Flatten(ifaces))
    case Some(a) => a
    case None => Fallback
  }

  // ---------------------------------------------------------------------------
  // Properties of the specification
  // ---------------------------------------------------------------------------

  lemma {:induction false} FlattenAppend(a: seq<Interface>, b: seq<Interface>)
    ensures Flatten(a + b) == Flatten(a) + Flatten(b)
  {
    if a == [] {
      assert a + b == b;
    } else {
      assert (a + b)[1..] == a[1..] + b;
      FlattenAppend(a[1..], b);
    }
  }

  /** An entry is in the flattened list exactly when some interface holds it. */
  lemma {:induction false} FlattenMembers(ifaces: seq<Interface>, x: AddressInfo)
    ensures x in Flatten(ifaces) <==> exists n :: 0 <= n < |ifaces| && x in ifaces[n].addresses
  {
    if ifaces != [] {
      FlattenMembers(ifaces[1..], x);
      if x in Flatten(ifaces[1..]) {
        var n :| 0 <= n < |ifaces[1..]| && x in ifaces[1..][n].addresses;
        assert x in ifaces[n + 1].addresses;
      }
      if exists n :: 0 <= n < |ifaces| && x in ifaces[n].addresses {
        var n :| 0 <= n < |ifaces| && x in ifaces[n].addresses;
        if n > 0 {
          assert x in ifaces[1..][n - 1].addresses;
        }
      }
    }
  }

  lemma {:induction false} FirstLanAddressSkip(a: seq<AddressInfo>, b: seq<AddressInfo>)
    requires NoneLan(a)
    ensures FirstLanAddress(a + b) == FirstLanAddress(b)
  {
    if a == [] {
      assert a + b == b;
    } else {
      assert !IsLanIPv4(a[0]);
      assert NoneLan(a[1..]) by {
        forall i | 0 <= i < |a[1..]| ensures !IsLanIPv4(a[1..][i]) { assert a[1..][i] == a[i + 1]; }
      }
      assert (a + b)[0] == a[0];
      assert (a + b)[1..] == a[1..] + b;
      FirstLanAddressSkip(a[1..], b);
    }
  }

  /**
   * First match: the result is `Some(a)` exactly when some entry at index `k`
   * is external IPv4 with address `a` and no entry before `k` is.
   */
  lemma {:induction false} FirstLanAddressIsFirst(s: seq<AddressInfo>, a: string)
    ensures FirstLanAddress(s) == Some(a) <==>
      exists k :: 0 <= k < |s| && IsLanIPv4(s[k]) && s[k].address == a && NoneLan(s[..k])
  {
    if s != [] {
      FirstLanAddressIsFirst(s[1..], a);
      if FirstLanAddress(s) == Some(a) {
        if IsLanIPv4(s[0]) {
          assert NoneLan(s[..0]);
        } else {
          var k :| 0 <= k < |s[1..]| && IsLanIPv4(s[1..][k]) && s[1..][k].address == a && NoneLan(s[1..][..k]);
          assert s[..k + 1] == [s[0]] + s[1..][..k];
          assert IsLanIPv4(s[k + 1]) && NoneLan(s[..k + 1]);
        }
      }
      if exists k :: 0 <= k < |s| && IsLanIPv4(s[k]) && s[k].address == a && NoneLan(s[..k]) {
        var k :| 0 <= k < |s| && IsLanIPv4(s[k]) && s[k].address == a && NoneLan(s[..k]);
        if k == 0 {
          assert FirstLanAddress(s) == Some(a);
        } else {
          assert s[k - 1 + 1] == s[1..][k - 1];
          assert s[1..][..k - 1] == s[..k][1..];
          assert !IsLanIPv4(s[0]) by { assert s[..k][0] == s[0]; }
        }
      }
    }
  }

  /** The result is `None` exactly when no entry is external IPv4. */
  lemma {:induction false} FirstLanAddressNone(s: seq<AddressInfo>)
    ensures FirstLanAddress(s) == None <==> NoneLan(s)
  {
    if s != [] {
      FirstLanAddressNone(s[1..]);
      if NoneLan(s[1..]) && !IsLanIPv4(s[0]) {
        forall i | 0 <= i < |s| ensures !IsLanIPv4(s[i]) {
          if i > 0 { assert s[i] == s[1..][i - 1]; }
        }
      }
      if NoneLan(s) {
        forall i | 0 <= i < |s[1..]| ensures !IsLanIPv4(s[1..][i]) {
          assert s[1..][i] == s[i + 1];
        }
      }
    }
  }

  /**
   * Fallback: `getLocalIP` gives `localhost` when no interface has an
   * external IPv4 address; when one has, it gives an address of such an entry.
   */
  lemma LocalIPFallback(ifaces: seq<Interface>)
    ensures (forall n, a :: 0 <= n < |ifaces| && a in ifaces[n].addresses ==> !IsLanIPv4(a))
      ==> LocalIP(ifaces) == Fallback
    ensures (exists n, a :: 0 <= n < |ifaces| && a in ifaces[n].addresses && IsLanIPv4(a))
      ==> exists n, a :: 0 <= n < |ifaces| && a in ifaces[n].addresses && IsLanIPv4(a) &&
            LocalIP(ifaces) == a.address
  {
    var flat := Flatten(ifaces);
    FirstLanAddressNone(flat);
    if forall n, a :: 0 <= n < |ifaces| && a in ifaces[n].addresses ==> !IsLanIPv4(a) {
      forall i | 0 <= i < |flat| ensures !IsLanIPv4(flat[i]) {
        FlattenMembers(ifaces, flat[i]);
      }
    } else {
      var n, x :| 0 <= n < |ifaces| && x in ifaces[n].addresses && IsLanIPv4(x);
      FlattenMembers(ifaces, x);
      var i :| 0 <= i < |flat| && flat[i] == x;
      assert !NoneLan(flat);
      var addr := FirstLanAddress(flat).value;
      FirstLanAddressIsFirst(flat, addr);
      var k :| 0 <= k < |flat| && IsLanIPv4(flat[k]) && flat[k].address == addr && NoneLan(flat[..k]);
      FlattenMembers(ifaces, flat[k]);
    }
  }

  /**
   * `localhost` is returned if and only if no entry is external IPv4, as long
   * as no external IPv4 entry carries the address text `localhost` (real
   * addresses are dotted quads).
   */
  lemma LocalIPIsFallbackIff(ifaces: seq<Interface>)
    requires forall n, a :: 0 <= n < |ifaces| && a in ifaces[n].addresses && IsLanIPv4(a) ==>
      a.address != Fallback
    ensures LocalIP(ifaces) == Fallback <==>
      forall n, a :: 0 <= n < |ifaces| && a in ifaces[n].addresses ==> !IsLanIPv4(a)
  {
    LocalIPFallback(ifaces);
  }

  // ---------------------------------------------------------------------------
  // The search as the source writes it
  // ---------------------------------------------------------------------------

  /**
   * Scans interface names in order and each interface's entries in order,
   * returning at the first external IPv4 entry, else `localhost`.
   */
  method GetLocalIP(ifaces: seq<Interface>) returns (ip: string)
    ensures ip == LocalIP(ifaces)
  {
    var n := 0;
    while n < |ifaces|
      invariant 0 <= n <= |ifaces|
      invariant NoneLan(Flatten(ifaces[..n]))
    {
      var entries := ifaces[n].addresses;
      var e := 0;
      while e < |entries|
        invariant 0 <= e <= |entries|
        invariant NoneLan(entries[..e])
      {
        if entries[e].family == "IPv4" && !entries[e].internal {
          ip := entries[e].address;
          FoundAt(ifaces, n, e);
          return;
        }
        e := e + 1;
      }
      assert entries[..e] == entries;
      ScannedInterface(ifaces, n);
      n := n + 1;
    }
    assert ifaces[..n] == ifaces;
    FirstLanAddressNone(Flatten(ifaces));
    ip := Fallback;
  }

  lemma ScannedInterface(ifaces: seq<Interface>, n: nat)
    requires n < |ifaces|
    requires NoneLan(Flatten(ifaces[..n])) && NoneLan(ifaces[n].addresses)
    ensures NoneLan(Flatten(ifaces[..n + 1]))
  {
    assert ifaces[..n + 1] == ifaces[..n] + [ifaces[n]];
    FlattenAppend(ifaces[..n], [ifaces[n]]);
    assert Flatten([ifaces[n]]) == ifaces[n].addresses + Flatten([]);
    var a, b := Flatten(ifaces[..n]), ifaces[n].addresses;
    assert Flatten(ifaces[..n + 1]) == a + b;
    forall i | 0 <= i < |a + b| ensures !IsLanIPv4((a + b)[i]) {
      if i >= |a| { assert (a + b)[i] == b[i - |a|]; }
    }
  }

  lemma FoundAt(ifaces: seq<Interface>, n: nat, e: nat)
    requires n < |ifaces| && e < |ifaces[n].addresses|
    requires NoneLan(Flatten(ifaces[..n])) && NoneLan(ifaces[n].addresses[..e])
    requires IsLanIPv4(ifaces[n].addresses[e])
    ensures LocalIP(ifaces) == ifaces[n].addresses[e].address
  {
    var entries := ifaces[n].addresses;
    assert ifaces == ifaces[..n] + ([ifaces[n]] + ifaces[n + 1..]);
    FlattenAppend(ifaces[..n], [ifaces[n]] + ifaces[n + 1..]);
    assert ([ifaces[n]] + ifaces[n + 1..])[1..] == ifaces[n + 1..];
    var rest := Flatten(ifaces[n + 1..]);
    assert Flatten(ifaces) == Flatten(ifaces[..n]) + (entries + rest);
    FirstLanAddressSkip(Flatten(ifaces[..n]), entries + rest);
    assert entries + rest == entries[..e] + (entries[e..] + rest);
    FirstLanAddressSkip(entries[..e], entries[e..] + rest);
    assert (entries[e..] + rest)[0] == entries[e];
  }
}
