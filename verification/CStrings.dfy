// string.c: NUL-terminated strings. A `seq<byte>` argument is the memory from the pointer to the end of its object.
module CStrings {
  import opened Bytes

  /** The characters of a string object up to its first NUL. */
  function Text(s: seq<byte>): (t: seq<byte>)
    ensures |t| <= |s| && t == s[..|t|] && 0 !in t
    ensures |t| < |s| ==> s[|t|] == 0
  {
    if s == [] || s[0] == 0 then [] else [s[0]] + Text(s[1..])
  }

  lemma {:induction false} TextBody(t: seq<byte>)
    requires 0 !in t
    ensures Text(t + [0]) == t
  {
    if t != [] {
      assert (t + [0])[1..] == t[1..] + [0];
      TextBody(t[1..]);
    }
  }

  lemma TextEnds(s: seq<byte>)
    requires 0 in s
    ensures |Text(s)| < |s|
  {
    assert |Text(s)| == |s| ==> Text(s) == s;
  }

  /** Byte-wise dictionary order. */
  predicate Less(a: seq<byte>, b: seq<byte>) {
    b != [] && (a == [] || a[0] < b[0] || (a[0] == b[0] && Less(a[1..], b[1..])))
  }

  lemma {:induction false} LessAt(a: seq<byte>, b: seq<byte>, i: nat)
    requires i <= |a| && i <= |b| && a[..i] == b[..i]
    requires i < |a| && i < |b| ==> a[i] != b[i]
    ensures Less(a, b) <==> i < |b| && (i == |a| || a[i] < b[i])
    ensures a == b <==> i == |a| == |b|
  {
    if i > 0 {
      assert a[0] == a[..i][0] && b[0] == b[..i][0];
      assert a[1..][..i - 1] == a[..i][1..] && b[1..][..i - 1] == b[..i][1..];
      LessAt(a[1..], b[1..], i - 1);
      assert a == [a[0]] + a[1..] && b == [b[0]] + b[1..];
    }
  }

  /** The characters before a NUL, none of them NUL, are the text. */
  lemma {:induction false} TextIs(s: seq<byte>, i: nat)
    requires i < |s| && s[i] == 0 && 0 !in s[..i]
    ensures Text(s) == s[..i]
  {
    if i > 0 {
      assert s[0] == s[..i][0];
      assert s[1..][..i - 1] == s[..i][1..];
      TextIs(s[1..], i - 1);
      assert s[..i] == [s[0]] + s[1..][..i - 1];
    }
  }

  lemma InText(s: seq<byte>, i: nat)
    requires 0 in s && i <= |Text(s)|
    ensures i < |s| && (i < |Text(s)| <==> s[i] != 0) && (i < |Text(s)| ==> Text(s)[i] == s[i])
  {
    TextEnds(s);
    if i < |Text(s)| {
      assert Text(s)[i] == s[i];
      assert Text(s)[i] in Text(s);
    }
  }

  /** strcmp: 0 exactly for equal strings, and its sign is their order. */
  method StrCmp(a: seq<byte>, b: seq<byte>) returns (r: int)
    requires 0 in a && 0 in b
    ensures r == 0 <==> Text(a) == Text(b)
    ensures r < 0 <==> Less(Text(a), Text(b))
    ensures exists i :: 0 <= i < |a| && i < |b| && a[..i] == b[..i] && 0 !in a[..i]
                        && (a[i] == 0 || a[i] != b[i]) && r == a[i] as int - b[i] as int
  {
    TextEnds(a);
    TextEnds(b);
    var i := 0;
    while a[i] != 0 && a[i] == b[i]
      invariant i <= |Text(a)| && i <= |Text(b)|
      invariant Text(a)[..i] == Text(b)[..i]
      decreases |a| - i
    {
      InText(a, i);
      InText(b, i);
      assert Text(a)[..i + 1] == Text(a)[..i] + [a[i]];
      assert Text(b)[..i + 1] == Text(b)[..i] + [b[i]];
      i := i + 1;
    }
    InText(a, i);
    InText(b, i);
    LessAt(Text(a), Text(b), i);
    assert a[..i] == Text(a)[..i] && b[..i] == Text(b)[..i];
    return a[i] as int - b[i] as int;
  }

  function Take(t: seq<byte>, n: nat): seq<byte> { if |t| <= n then t else t[..n] }

  lemma TakeAt(t: seq<byte>, i: nat, n: nat)
    requires i <= |t| && i < n
    ensures i <= |Take(t, n)| && Take(t, n)[..i] == t[..i]
    ensures i < |Take(t, n)| <==> i < |t|
    ensures i < |t| ==> Take(t, n)[i] == t[i]
  {
  }

  /** The strings first part at `i`, or both end there. */
  lemma PartAt(a: seq<byte>, b: seq<byte>, i: nat, num: nat)
    requires 0 in a && 0 in b && i <= |Text(a)| && i <= |Text(b)| && i < num
    requires Text(a)[..i] == Text(b)[..i]
    requires i < |a| && i < |b| && (a[i] != b[i] || a[i] == 0)
    ensures a[..i] == b[..i] && 0 !in a[..i]
    ensures a[i] == b[i] <==> Take(Text(a), num) == Take(Text(b), num)
    ensures a[i] < b[i] <==> Less(Take(Text(a), num), Take(Text(b), num))
  {
    InText(a, i);
    InText(b, i);
    TakeAt(Text(a), i, num);
    TakeAt(Text(b), i, num);
    LessAt(Take(Text(a), num), Take(Text(b), num), i);
    assert a[..i] == Text(a)[..i] && b[..i] == Text(b)[..i];
  }

  /** No difference among the first `num`. */
  lemma SameTo(a: seq<byte>, b: seq<byte>, num: nat)
    requires 0 in a && 0 in b && num <= |Text(a)| && num <= |Text(b)|
    requires Text(a)[..num] == Text(b)[..num]
    ensures num <= |a| && num <= |b| && a[..num] == b[..num] && 0 !in a[..num]
    ensures Take(Text(a), num) == Take(Text(b), num)
    ensures !Less(Take(Text(a), num), Take(Text(b), num))
  {
    assert Take(Text(a), num) == Text(a)[..num] && Take(Text(b), num) == Text(b)[..num];
    LessAt(Text(a)[..num], Text(b)[..num], num);
    assert a[..num] == Text(a)[..num] && b[..num] == Text(b)[..num];
  }

  lemma OneMore(a: seq<byte>, b: seq<byte>, i: nat)
    requires 0 in a && 0 in b && i <= |Text(a)| && i <= |Text(b)|
    requires Text(a)[..i] == Text(b)[..i]
    ensures i < |a| && i < |b|
    ensures a[i] == b[i] && a[i] != 0 ==>
              i < |Text(a)| && i < |Text(b)| && Text(a)[..i + 1] == Text(b)[..i + 1]
  {
    InText(a, i);
    InText(b, i);
    if a[i] == b[i] && a[i] != 0 {
      assert Text(a)[..i + 1] == Text(a)[..i] + [a[i]];
      assert Text(b)[..i + 1] == Text(b)[..i] + [b[i]];
    }
  }

  /** strncmp: strcmp of the first `num` characters. */
  method StrNCmp(a: seq<byte>, b: seq<byte>, num: nat) returns (r: int)
    requires 0 in a && 0 in b
    ensures r == 0 <==> Take(Text(a), num) == Take(Text(b), num)
    ensures r < 0 <==> Less(Take(Text(a), num), Take(Text(b), num))
    ensures (r == 0 && num <= |a| && num <= |b| && a[..num] == b[..num] && 0 !in a[..num])
            || exists i :: 0 <= i < |a| && i < |b| && i < num && a[..i] == b[..i] && 0 !in a[..i]
                           && (a[i] == 0 || a[i] != b[i]) && r == a[i] as int - b[i] as int
  {
    hide *;
    var i := 0;
    while i < num
      invariant i <= num && i <= |Text(a)| && i <= |Text(b)|
      invariant Text(a)[..i] == Text(b)[..i]
    {
      OneMore(a, b, i);
      if a[i] != b[i] || a[i] == 0 {
        PartAt(a, b, i, num);
        return a[i] as int - b[i] as int;
      }
      i := i + 1;
    }
    SameTo(a, b, num);
    return 0;
  }

  /** strchr: the first occurrence in the text; -1 stands for the null pointer, which a search for NUL gets too. */
  method StrChr(s: seq<byte>, c: byte) returns (r: int)
    requires 0 in s
    ensures -1 <= r < |Text(s)|
    ensures r == -1 <==> c !in Text(s)
    ensures r >= 0 ==> Text(s)[r] == c == s[r] && c !in Text(s)[..r]
  {
    var i := 0;
    InText(s, 0);
    while s[i] != 0
      invariant i <= |Text(s)| && i < |s|
      invariant c !in Text(s)[..i]
      decreases |s| - i
    {
      InText(s, i);
      if s[i] == c {
        return i;
      }
      assert Text(s)[..i + 1] == Text(s)[..i] + [s[i]];
      i := i + 1;
      InText(s, i);
    }
    InText(s, i);
    assert Text(s)[..i] == Text(s);
    return -1;
  }
}
