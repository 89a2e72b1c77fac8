/** Trimming and ordering of identifiers. */
module Text {
  predicate IsSpace(c: char) {
    || '\t' <= c <= '\r' || c == ' ' || c == '\U{0085}' || c == '\U{00A0}' || c == '\U{1680}'
    || '\U{2000}' <= c <= '\U{200A}' || c == '\U{2028}' || c == '\U{2029}' || c == '\U{202F}'
    || c == '\U{205F}' || c == '\U{3000}'
  }

  function TrimLeft(s: string): string {
    if s != "" && IsSpace(s[0]) then TrimLeft(s[1..]) else s
  }

  function TrimRight(s: string): string {
    if s != "" && IsSpace(s[|s| - 1]) then TrimRight(s[..|s| - 1]) else s
  }

  function TrimSpace(s: string): string {
    TrimRight(TrimLeft(s))
  }

  /** s neither starts nor ends with white space. */
  predicate IsTrimmed(s: string) {
    s == "" || (!IsSpace(s[0]) && !IsSpace(s[|s| - 1]))
  }

  lemma {:induction false} TrimRightKeepsHead(s: string)
    requires s == "" || !IsSpace(s[0])
    ensures IsTrimmed(TrimRight(s))
  {
    if s == "" || !IsSpace(s[|s| - 1]) {
    } else {
      TrimRightKeepsHead(s[..|s| - 1]);
    }
  }

  lemma {:induction false} TrimLeftStripsHead(s: string)
    ensures TrimLeft(s) == "" || !IsSpace(TrimLeft(s)[0])
  {
    if s == "" || !IsSpace(s[0]) {
    } else {
      TrimLeftStripsHead(s[1..]);
    }
  }

  /** Trimming strips both ends and changes nothing that is already stripped. */
  lemma TrimSpaceTrims(s: string)
    ensures IsTrimmed(TrimSpace(s))
    ensures IsTrimmed(s) ==> TrimSpace(s) == s
    ensures TrimSpace(TrimSpace(s)) == TrimSpace(s)
  {
    TrimLeftStripsHead(s);
    TrimRightKeepsHead(TrimLeft(s));
  }

  predicate AllSpace(s: string) {
    forall i :: 0 <= i < |s| ==> IsSpace(s[i])
  }

  lemma {:induction false} TrimLeftStripsSpace(s: string) returns (left: string)
    ensures AllSpace(left) && s == left + TrimLeft(s)
  {
    hide IsSpace;
    if s != "" && IsSpace(s[0]) {
      var rest := TrimLeftStripsSpace(s[1..]);
      left := [s[0]] + rest;
      assert s == [s[0]] + (rest + TrimLeft(s));
    } else {
      left := "";
    }
  }

  lemma {:induction false} TrimRightStripsSpace(s: string) returns (right: string)
    ensures AllSpace(right) && s == TrimRight(s) + right
  {
    hide IsSpace;
    if s != "" && IsSpace(s[|s| - 1]) {
      var rest := TrimRightStripsSpace(s[..|s| - 1]);
      right := rest + [s[|s| - 1]];
      assert s == (TrimRight(s) + rest) + [s[|s| - 1]];
    } else {
      right := "";
    }
  }

  /** Trimming takes away white space only, and all of it at both ends. */
  lemma TrimSpaceStripsSpace(s: string) returns (left: string, right: string)
    ensures AllSpace(left) && AllSpace(right) && s == left + TrimSpace(s) + right && IsTrimmed(TrimSpace(s))
  {
    TrimSpaceTrims(s);
    left := TrimLeftStripsSpace(s);
    right := TrimRightStripsSpace(TrimLeft(s));
  }

  /** Lexicographic comparison: -1, 0 or 1. */
  function Compare(a: string, b: string): int {
    if a == "" && b == "" then 0
    else if a == "" then -1
    else if b == "" then 1
    else if a[0] < b[0] then -1
    else if b[0] < a[0] then 1
    else Compare(a[1..], b[1..])
  }

  lemma {:induction false} CompareIsTotal(a: string, b: string)
    ensures Compare(a, b) == -Compare(b, a) && -1 <= Compare(a, b) <= 1
    ensures Compare(a, b) == 0 <==> a == b
  {
    if a == "" || b == "" || a[0] != b[0] {
    } else {
      CompareIsTotal(a[1..], b[1..]);
      assert a == [a[0]] + a[1..] && b == [b[0]] + b[1..];
    }
  }

  lemma {:induction false} CompareIsTransitive(a: string, b: string, c: string)
    requires Compare(a, b) <= 0 && Compare(b, c) <= 0
    ensures Compare(a, c) <= 0
    ensures Compare(a, b) < 0 || Compare(b, c) < 0 ==> Compare(a, c) < 0
  {
    if a == "" || b == "" || c == "" || a[0] != b[0] || b[0] != c[0] {
    } else {
      CompareIsTransitive(a[1..], b[1..], c[1..]);
    }
  }

  /** The first place where two texts differ, one of them possibly ending there. */
  ghost predicate DiffersAt(a: string, b: string, k: nat) {
    k <= |a| && k <= |b| && a[..k] == b[..k] && a != b && (k < |a| && k < |b| ==> a[k] != b[k])
  }

  /** Up to that place a ends, or has the smaller character there. */
  ghost predicate SmallerAt(a: string, b: string, k: nat) {
    DiffersAt(a, b, k) && (k == |a| || (k < |b| && a[k] < b[k]))
  }

  /** Lexicographic order, written out. */
  ghost predicate Precedes(a: string, b: string) {
    exists k: nat :: SmallerAt(a, b, k)
  }

  lemma SameFirst(a: string, b: string, k: nat)
    requires a != "" && b != "" && a[0] == b[0]
    ensures SmallerAt(a, b, k + 1) <==> SmallerAt(a[1..], b[1..], k)
    ensures !SmallerAt(a, b, 0)
  {
    assert a == [a[0]] + a[1..] && b == [b[0]] + b[1..];
    if k < |a| && k < |b| {
      assert a[..k + 1] == [a[0]] + a[1..][..k] && b[..k + 1] == [b[0]] + b[1..][..k];
      assert a[..k + 1][1..] == a[1..][..k] && b[..k + 1][1..] == b[1..][..k];
    }
  }

  lemma OtherFirst(a: string, b: string)
    requires a == "" || b == "" || a[0] != b[0]
    ensures Precedes(a, b) <==> b != "" && (a == "" || a[0] < b[0])
  {
    forall k: nat | 0 < k && k <= |a| && k <= |b|
      ensures a[..k] != b[..k]
    {
      assert a[..k][0] != b[..k][0];
    }
    if b != "" && (a == "" || a[0] < b[0]) {
      assert SmallerAt(a, b, 0);
    }
  }

  /** The comparison is lexicographic order. */
  lemma {:induction false} CompareIsLexicographic(a: string, b: string)
    ensures Compare(a, b) < 0 <==> Precedes(a, b)
  {
    hide SmallerAt;
    if a == "" || b == "" || a[0] != b[0] {
      OtherFirst(a, b);
    } else {
      CompareIsLexicographic(a[1..], b[1..]);
      SameFirst(a, b, 0);
      if Precedes(a, b) {
        var k: nat :| SmallerAt(a, b, k);
        SameFirst(a, b, k - 1);
      } else if Precedes(a[1..], b[1..]) {
        var k: nat :| SmallerAt(a[1..], b[1..], k);
        SameFirst(a, b, k);
      }
    }
  }
}
