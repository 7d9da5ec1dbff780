/**
  The few functions of Go's `strings` package that the mDNS layer relies on,
  restricted to the one-character separators it uses ("=", "," and ":").
 */
module GoStrings {

  /** Position of the first occurrence of `c` in `s`. */
  function IndexOf(s: string, c: char): (i: nat)
    requires c in s
    ensures i < |s| && s[i] == c
    ensures c !in s[..i]
  {
    if s[0] == c then 0
    else
      var j := IndexOf(s[1..], c);
      assert s[..j + 1] == [s[0]] + s[1..][..j];
      j + 1
  }

  /** A text is the part before position `i`, the character there, and the part after. */
  lemma CutAt(s: string, i: nat)
    requires i < |s|
    ensures s == s[..i] + [s[i]] + s[i + 1..]
  {
  }

  /** A prefix one element longer is the shorter prefix followed by that element. */
  lemma PrefixSnoc<T>(s: seq<T>, i: nat)
    requires 0 < i <= |s|
    ensures s[..i] == s[..i - 1] + [s[i - 1]]
  {
  }

  /** The first occurrence of `c` in `a + [c] + b` is the one right after `a` when `a` holds no `c`. */
  lemma IndexOfAfter(a: string, c: char, b: string)
    requires c !in a
    ensures c in a + [c] + b && IndexOf(a + [c] + b, c) == |a|
  {
    var s := a + [c] + b;
    assert s[|a|] == c;
    var i := IndexOf(s, c);
    assert forall k :: 0 <= k < |a| ==> s[k] == a[k] && a[k] in a;
  }

  /**
    `strings.Split(s, string(c))`: the pieces of `s` between occurrences of `c`.
    An empty `s` gives one empty piece, never zero pieces.
   */
  function Split(s: string, c: char): (parts: seq<string>)
    ensures |parts| >= 1
    ensures |parts| == 1 <==> c !in s
    ensures parts == [""] <==> s == ""
    decreases |s|
  {
    if c !in s then [s]
    else
      var i := IndexOf(s, c);
      [s[..i]] + Split(s[i + 1..], c)
  }

  /** No piece produced by Split contains the separator. */
  lemma {:induction false} SplitPiecesFree(s: string, c: char)
    ensures forall p :: p in Split(s, c) ==> c !in p
    decreases |s|
  {
    if c in s {
      var i := IndexOf(s, c);
      SplitPiecesFree(s[i + 1..], c);
      assert Split(s, c) == [s[..i]] + Split(s[i + 1..], c);
    }
  }

  /** Splitting `k + [c] + v` where `k` has no `c` gives `k` followed by the pieces of `v`. */
  lemma SplitAfterKey(k: string, c: char, v: string)
    requires c !in k
    ensures Split(k + [c] + v, c) == [k] + Split(v, c)
  {
    var s := k + [c] + v;
    IndexOfAfter(k, c, v);
    assert s[..|k|] == k;
    assert s[|k| + 1..] == v;
  }

  /** `strings.Join(parts, string(c))`. */
  function Join(parts: seq<string>, c: char): (s: string)
    ensures s == "" <==> parts == [] || parts == [""]
  {
    if |parts| == 0 then ""
    else if |parts| == 1 then parts[0]
    else parts[0] + [c] + Join(parts[1..], c)
  }

  /** A character occurs in a join exactly when it occurs in a part, or it is the separator between two parts. */
  lemma {:induction false} JoinContains(parts: seq<string>, c: char, d: char)
    ensures d in Join(parts, c) <==> (exists p :: p in parts && d in p) || (d == c && |parts| >= 2)
  {
    if |parts| >= 2 {
      var rest := parts[1..];
      JoinContains(rest, c, d);
      var s := Join(parts, c);
      assert s == parts[0] + [c] + Join(rest, c);
      assert d in s <==> d in parts[0] || d == c || d in Join(rest, c);
      assert forall p :: p in parts <==> p == parts[0] || p in rest;
    }
  }

  /** Split undoes Join when no part contains the separator and there is at least one part. */
  lemma {:induction false} SplitJoin(parts: seq<string>, c: char)
    requires |parts| >= 1
    requires forall p :: p in parts ==> c !in p
    ensures Split(Join(parts, c), c) == parts
  {
    if |parts| >= 2 {
      var rest := parts[1..];
      assert parts[0] in parts;
      assert forall p :: p in rest ==> p in parts;
      SplitAfterKey(parts[0], c, Join(rest, c));
      SplitJoin(rest, c);
      assert parts == [parts[0]] + rest;
    }
  }

  /** `strings.ReplaceAll(s, string(a), string(b))`. */
  function ReplaceChar(s: string, a: char, b: char): (r: string)
    ensures |r| == |s|
    ensures forall i :: 0 <= i < |s| ==> r[i] == if s[i] == a then b else s[i]
  {
    if s == [] then [] else [if s[0] == a then b else s[0]] + ReplaceChar(s[1..], a, b)
  }

  /** Replacing twice is replacing once. */
  lemma ReplaceCharTwice(s: string, a: char, b: char)
    requires a != b
    ensures ReplaceChar(ReplaceChar(s, a, b), a, b) == ReplaceChar(s, a, b)
  {
    var r := ReplaceChar(s, a, b);
    assert forall i :: 0 <= i < |r| ==> ReplaceChar(r, a, b)[i] == r[i];
  }

  /** Go's `unicode.IsSpace`: the Latin-1 spaces and the other White_Space code points. */
  predicate IsSpace(c: char)
    ensures IsSpace(c) ==> c != ':' && c != '-' && LowerAscii(c) == c
  {
    || c == ' ' || c == '\t' || c == '\n' || c == '\U{000B}' || c == '\U{000C}' || c == '\r'
    || c == '\U{0085}' || c == '\U{00A0}' || c == '\U{1680}'
    || ('\U{2000}' <= c <= '\U{200A}')
    || c == '\U{2028}' || c == '\U{2029}' || c == '\U{202F}' || c == '\U{205F}' || c == '\U{3000}'
  }

  /** Drops leading white space: the result is a suffix of `s` and everything dropped is space. */
  function TrimLeft(s: string): (r: string)
    ensures |r| <= |s| && r == s[|s| - |r|..]
    ensures forall k :: 0 <= k < |s| - |r| ==> IsSpace(s[k])
    ensures r != [] ==> !IsSpace(r[0])
  {
    if s != [] && IsSpace(s[0]) then TrimLeft(s[1..]) else s
  }

  /** Drops trailing white space: the result is a prefix of `s` and everything dropped is space. */
  function TrimRight(s: string): (r: string)
    ensures |r| <= |s| && r == s[..|r|]
    ensures forall k :: |r| <= k < |s| ==> IsSpace(s[k])
    ensures r != [] ==> !IsSpace(r[|r| - 1])
  {
    if s != [] && IsSpace(s[|s| - 1]) then TrimRight(s[..|s| - 1]) else s
  }

  /** `strings.TrimSpace`: no longer than `s`, and neither starting nor ending with white space. */
  function TrimSpace(s: string): (r: string)
    ensures |r| <= |s|
    ensures r != [] ==> !IsSpace(r[0]) && !IsSpace(r[|r| - 1])
  {
    TrimRight(TrimLeft(s))
  }

  /** ASCII lower-casing of one character; every other character is unchanged. */
  function LowerAscii(c: char): char
  {
    if 'A' <= c <= 'Z' then (c as int + 32) as char else c
  }

  /** `strings.EqualFold`, restricted to ASCII case folding. */
  predicate EqualFold(a: string, b: string)
    ensures EqualFold(a, b) ==> |a| == |b|
    ensures a == b ==> EqualFold(a, b)
  {
    if a == [] || b == [] then a == b
    else LowerAscii(a[0]) == LowerAscii(b[0]) && EqualFold(a[1..], b[1..])
  }

  /** EqualFold holds exactly when the texts have one length and agree letter by letter up to ASCII case. */
  lemma {:induction false} EqualFoldIff(a: string, b: string)
    ensures EqualFold(a, b) <==> |a| == |b| && forall i :: 0 <= i < |a| ==> LowerAscii(a[i]) == LowerAscii(b[i])
  {
    if a != [] && b != [] {
      EqualFoldIff(a[1..], b[1..]);
      assert forall i :: 0 < i < |a| ==> a[i] == a[1..][i - 1];
      assert forall i :: 0 < i < |b| ==> b[i] == b[1..][i - 1];
    }
  }
}
