/** string.c: NUL-terminated strings in fixed buffers, proved against string values. */
module CString {
  /** A C char: one byte */
  type CChar = c: char | c as int < 256 witness 'a'

  /** The value that `char` takes in an expression: it is signed. */
  function Signed(c: CChar): int {
    if c as int < 128 then c as int else c as int - 256
  }

  /** The index of the first NUL */
  function Length(s: seq<CChar>): (n: nat)
    ensures n <= |s| && forall i :: 0 <= i < n ==> s[i] != '\0'
    ensures n < |s| ==> s[n] == '\0'
    decreases |s|
  {
    if s == [] || s[0] == '\0' then 0 else 1 + Length(s[1..])
  }

  predicate Terminated(s: seq<CChar>) {
    Length(s) < |s|
  }

  /** The string that a buffer holds */
  function Text(s: seq<CChar>): seq<CChar> {
    s[..Length(s)]
  }

  lemma {:induction false} LengthIs(s: seq<CChar>, n: nat)
    requires n < |s| && s[n] == '\0' && forall i :: 0 <= i < n ==> s[i] != '\0'
    ensures Length(s) == n
  {
    if n > 0 {
      LengthIs(s[1..], n - 1);
    }
  }

  lemma TextIs(s: seq<CChar>, t: seq<CChar>)
    requires |t| < |s| && s[..|t|] == t && s[|t|] == '\0' && forall i :: 0 <= i < |t| ==> t[i] != '\0'
    ensures Terminated(s) && Text(s) == t
  {
    LengthIs(s, |t|);
  }

  method StrLen(s: array<CChar>) returns (i: nat)
    requires Terminated(s[..])
    ensures i == |Text(s[..])|
  {
    i := 0;
    while s[i] != '\0'
      invariant i <= Length(s[..])
      decreases Length(s[..]) - i
    {
      i := i + 1;
    }
  }

  /** The first place where two strings differ, or the end of both */
  function Differ(a: seq<CChar>, b: seq<CChar>): (k: nat)
    ensures k <= |a| && k <= |b| && a[..k] == b[..k]
    ensures k < |a| && k < |b| ==> a[k] != b[k]
    decreases |a|
  {
    if a == [] || b == [] || a[0] != b[0] then 0
    else
      var k := Differ(a[1..], b[1..]);
      assert a[..k + 1] == [a[0]] + a[1..][..k] && b[..k + 1] == [b[0]] + b[1..][..k];
      k + 1
  }

  function CharAt(s: seq<CChar>, k: nat): CChar {
    if k < |s| then s[k] else '\0'
  }

  method StrCmp(a: array<CChar>, b: array<CChar>) returns (r: int)
    requires Terminated(a[..]) && Terminated(b[..])
    ensures r == 0 <==> Text(a[..]) == Text(b[..])
    ensures var k := Differ(Text(a[..]), Text(b[..]));
            r == Signed(CharAt(Text(a[..]), k)) - Signed(CharAt(Text(b[..]), k))
  {
    ghost var s, t := Text(a[..]), Text(b[..]);
    var i := 0;
    while a[i] != '\0' && a[i] == b[i]
      invariant 0 <= i <= |s| && i <= |t| && s[..i] == t[..i]
      decreases |s| - i
    {
      i := i + 1;
    }
    DifferIs(s, t, i);
    return Signed(a[i]) - Signed(b[i]);
  }

  lemma DifferIs(s: seq<CChar>, t: seq<CChar>, i: nat)
    requires i <= |s| && i <= |t| && s[..i] == t[..i]
    requires i == |s| || i == |t| || s[i] != t[i]
    ensures Differ(s, t) == i
  {
    var k := Differ(s, t);
    assert forall j :: 0 <= j < i ==> s[..i][j] == s[j] && t[..i][j] == t[j];
    assert forall j :: 0 <= j < k ==> s[..k][j] == s[j] && t[..k][j] == t[j];
  }

  function Prefix(s: seq<CChar>, n: nat): seq<CChar> {
    if |s| <= n then s else s[..n]
  }

  /** strncmp compares the first n characters as strcmp compares all. */
  method StrNCmp(a: array<CChar>, b: array<CChar>, n: nat) returns (r: int)
    requires Terminated(a[..]) && Terminated(b[..])
    ensures r == 0 <==> Prefix(Text(a[..]), n) == Prefix(Text(b[..]), n)
    ensures var p, q := Prefix(Text(a[..]), n), Prefix(Text(b[..]), n);
            var k := Differ(p, q);
            r == Signed(CharAt(p, k)) - Signed(CharAt(q, k))
  {
    ghost var s, t := Text(a[..]), Text(b[..]);
    var i := 0;
    while i < n
      invariant 0 <= i <= n && i <= |s| && i <= |t| && s[..i] == t[..i]
    {
      if a[i] != b[i] {
        PrefixDiffers(s, t, i, n);
        return Signed(a[i]) - Signed(b[i]);
      }
      if a[i] == '\0' {
        PrefixSame(s, t, n);
        return 0;
      }
      i := i + 1;
    }
    PrefixSame(s, t, n);
    return 0;
  }

  lemma PrefixSame(s: seq<CChar>, t: seq<CChar>, n: nat)
    requires Prefix(s, n) == Prefix(t, n)
    ensures var p, q := Prefix(s, n), Prefix(t, n);
            var k := Differ(p, q); CharAt(p, k) == CharAt(q, k)
  {
  }

  lemma PrefixDiffers(s: seq<CChar>, t: seq<CChar>, i: nat, n: nat)
    requires i < n && i <= |s| && i <= |t| && s[..i] == t[..i]
    requires i < |s| && i < |t| ==> s[i] != t[i]
    requires i < |s| || i < |t|
    ensures var p, q := Prefix(s, n), Prefix(t, n);
            && p != q && Differ(p, q) == i
            && CharAt(p, i) == CharAt(s, i) && CharAt(q, i) == CharAt(t, i)
  {
    var p, q := Prefix(s, n), Prefix(t, n);
    assert p[..i] == s[..i] && q[..i] == t[..i];
    assert i < |s| ==> i < |p| && p[i] == s[i];
    assert i < |t| ==> i < |q| && q[i] == t[i];
    DifferIs(p, q, i);
  }

  /** The rest of the destination is untouched. */
  method StrCpy(dest: array<CChar>, src: array<CChar>)
    requires dest != src && Terminated(src[..]) && Length(src[..]) < dest.Length
    modifies dest
    ensures Terminated(dest[..]) && Text(dest[..]) == Text(src[..])
    ensures dest[Length(src[..]) + 1..] == old(dest[Length(src[..]) + 1..])
  {
    var i := 0;
    while src[i] != '\0'
      invariant 0 <= i <= Length(src[..])
      decreases Length(src[..]) - i
      invariant dest[..i] == src[..i]
      invariant dest[i..] == old(dest[i..])
    {
      dest[i] := src[i];
      i := i + 1;
    }
    dest[i] := '\0';
    TextIs(dest[..], Text(src[..]));
  }

  /** strncpy cuts after n characters and, unlike the standard one, always ends the copy with one NUL. */
  method StrNCpy(dest: array<CChar>, src: array<CChar>, n: nat)
    requires dest != src && Terminated(src[..]) && |Prefix(Text(src[..]), n)| < dest.Length
    modifies dest
    ensures Terminated(dest[..]) && Text(dest[..]) == Prefix(Text(src[..]), n)
    ensures forall k :: |Prefix(Text(src[..]), n)| < k < dest.Length ==> dest[k] == old(dest[k])
  {
    ghost var s := Text(src[..]);
    ghost var p := Prefix(s, n);
    var i := 0;
    while i < n && src[i] != '\0'
      invariant 0 <= i <= |p| && Text(src[..]) == s
      invariant dest[..i] == p[..i]
      invariant forall k :: i <= k < dest.Length ==> dest[k] == old(dest[k])
    {
      dest[i] := src[i];
      i := i + 1;
    }
    assert i == |p| && dest[..i] == p;
    dest[i] := '\0';
    assert dest[..i] == p;
    TextIs(dest[..], p);
  }

  method StrCat(dest: array<CChar>, src: array<CChar>)
    requires dest != src && Terminated(dest[..]) && Terminated(src[..])
    requires Length(dest[..]) + Length(src[..]) < dest.Length
    modifies dest
    ensures Terminated(dest[..]) && Text(dest[..]) == old(Text(dest[..])) + Text(src[..])
    ensures forall k :: old(Length(dest[..])) + Length(src[..]) < k < dest.Length ==> dest[k] == old(dest[k])
  {
    ghost var head, tail := Text(dest[..]), Text(src[..]);
    var len := StrLen(dest);
    var i := 0;
    while src[i] != '\0'
      invariant 0 <= i <= |tail| && Text(src[..]) == tail
      invariant dest[..len + i] == head + tail[..i]
      invariant forall k :: len + i <= k < dest.Length ==> dest[k] == old(dest[k])
      decreases |tail| - i
    {
      dest[len + i] := src[i];
      i := i + 1;
    }
    ghost var joined := head + tail;
    dest[len + i] := '\0';
    assert dest[..len + i] == joined;
    TextIs(dest[..], joined);
  }

  /** kmemcpy */
  method MemCpy(dest: array<CChar>, at: nat, src: array<CChar>, count: nat)
    requires dest != src && count <= src.Length && at + count <= dest.Length
    modifies dest
    ensures dest[..] == old(dest[..at]) + src[..count] + old(dest[at + count..])
  {
    var i := 0;
    while i < count
      invariant 0 <= i <= count
      invariant dest[..at + i] == old(dest[..at]) + src[..i]
      invariant dest[at + i..] == old(dest[at + i..])
    {
      dest[at + i] := src[i];
      i := i + 1;
    }
  }

  method StrJoin(a: array<CChar>, b: array<CChar>) returns (result: array<CChar>)
    requires Terminated(a[..]) && Terminated(b[..])
    ensures fresh(result) && Terminated(result[..]) && Text(result[..]) == Text(a[..]) + Text(b[..])
  {
    var lenA := StrLen(a);
    var lenB := StrLen(b);
    result := new CChar[lenA + lenB + 1];
    MemCpy(result, 0, a, lenA);
    assert result[..lenA] == Text(a[..]);
    MemCpy(result, lenA, b, lenB);
    ghost var joined := Text(a[..]) + Text(b[..]);
    assert result[..lenA + lenB] == joined;
    result[lenA + lenB] := '\0';
    assert result[..lenA + lenB] == joined;
    TextIs(result[..], joined);
  }
}
