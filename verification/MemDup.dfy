/** Duplicating memory, all of it or up to a byte looked for. */
module MemDup {
  import opened Basics

  /** The bytes through the first `needle`, or all of them when there is none. */
  function CutAfter(s: seq<byte>, needle: byte): (r: seq<byte>)
    ensures r <= s
    ensures needle !in s ==> r == s
    ensures needle in s ==> r != [] && r[|r| - 1] == needle && needle !in r[..|r| - 1]
  {
    if s == [] then []
    else if s[0] == needle then [needle]
    else
      var r := CutAfter(s[1..], needle);
      assert needle in s[1..] ==> ([s[0]] + r)[..|r|] == [s[0]] + r[..|r| - 1];
      [s[0]] + r
  }

  lemma {:induction false} CutAtIndex(s: seq<byte>, needle: byte, i: nat)
    requires i < |s| && s[i] == needle && needle !in s[..i]
    ensures CutAfter(s, needle) == s[..i + 1]
  {
    if i > 0 {
      assert needle !in s[1..][..i - 1] by { assert s[1..][..i - 1] == s[..i][1..]; }
      CutAtIndex(s[1..], needle, i - 1);
      assert s[..i + 1] == [s[0]] + s[1..][..i];
    } else {
      assert s[..1] == [needle];
    }
  }

  method Memchr(s: array<byte>, needle: byte, n: nat) returns (i: Option<nat>)
    requires n <= s.Length
    ensures i.None? ==> needle !in s[..n]
    ensures i.Some? ==> i.value < n && s[i.value] == needle && needle !in s[..i.value]
  {
    for k := 0 to n
      invariant needle !in s[..k]
    {
      if s[k] == needle { return Some(k); }
      assert s[..k + 1] == s[..k] + [s[k]];
    }
    return None;
  }

  /** __memdup */
  method Dup(s: array<byte>, n: nat, available: bool) returns (copy: array?<byte>)
    requires n <= s.Length
    ensures copy == null <==> !available
    ensures copy != null ==> fresh(copy) && copy[..] == s[..n]
  {
    if !available { return null; }
    copy := new byte[n](_ => 0);
    for k := 0 to n
      invariant copy[..k] == s[..k]
    {
      copy[k] := s[k];
    }
  }

  /** __memcdup. It searches one byte less than it may copy, which makes no difference: the last
      byte is copied whether it is the needle or not. */
  method DupThrough(s: array<byte>, needle: int, n: nat, available: bool) returns (copy: array?<byte>)
    requires n <= s.Length
    ensures copy == null <==> !available
    ensures copy != null ==> fresh(copy) && copy[..] == CutAfter(s[..n], (needle % 256) as byte)
  {
    var b := (needle % 256) as byte;
    var m := n;
    if n > 0 {
      var end := Memchr(s, b, n - 1);
      if end.Some? { m := end.value + 1; }
    }
    assert s[..m] == CutAfter(s[..n], b) by { CutIsFound(s[..n], b, m); }
    copy := Dup(s, m, available);
  }

  /** What the search over all but the last byte finds is the cut of the whole. */
  lemma CutIsFound(s: seq<byte>, needle: byte, m: nat)
    requires m <= |s|
    requires m < |s| ==> m > 0 && s[m - 1] == needle && needle !in s[..m - 1]
    requires m == |s| && m > 0 ==> needle !in s[..m - 1]
    ensures s[..m] == CutAfter(s, needle)
  {
    if m > 0 && s[m - 1] == needle {
      CutAtIndex(s, needle, m - 1);
    } else {
      assert s[..m] == s;
      if m > 0 { assert s == s[..m - 1] + [s[m - 1]]; }
    }
  }
}
