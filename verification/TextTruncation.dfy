/** Truncation of the text that PostgreSQL indexes (internal/storage/entry.go).
    A Go string is modelled as its bytes. */
module TextTruncation {
  import opened Common

  const TITLE_LIMIT: int := 200000
  const CONTENT_LIMIT: int := 500000

  // ----- UTF-8, section 4 of RFC 3629 -----

  predicate Tail(b: Byte) { 0x80 <= b <= 0xBF }

  /** The length of the well-formed character at the start of s; 0 if there is none. */
  function CharLen(s: seq<Byte>): nat {
    if s == [] then 0
    else if s[0] <= 0x7F then 1
    else if |s| >= 2 && 0xC2 <= s[0] <= 0xDF && Tail(s[1]) then 2
    else if |s| >= 3 && Tail(s[2]) && (
              || (s[0] == 0xE0 && 0xA0 <= s[1] <= 0xBF)
              || (0xE1 <= s[0] <= 0xEC && Tail(s[1]))
              || (s[0] == 0xED && 0x80 <= s[1] <= 0x9F)
              || (0xEE <= s[0] <= 0xEF && Tail(s[1]))) then 3
    else if |s| >= 4 && Tail(s[2]) && Tail(s[3]) && (
              || (s[0] == 0xF0 && 0x90 <= s[1] <= 0xBF)
              || (0xF1 <= s[0] <= 0xF3 && Tail(s[1]))
              || (s[0] == 0xF4 && 0x80 <= s[1] <= 0x8F)) then 4
    else 0
  }

  /** s is a sequence of well-formed characters. */
  predicate ValidUtf8(s: seq<Byte>)
    decreases |s|
  {
    s == [] || (0 < CharLen(s) <= |s| && ValidUtf8(s[CharLen(s)..]))
  }

  // ----- The code -----

  predicate IsAscii(b: Byte) { b & 0x80 == 0 }

  predicate IsLead(b: Byte) { b & 0xC0 == 0xC0 }

  /** What the backward scan over `truncated` leaves. */
  function CutBack(t: seq<Byte>): seq<Byte> {
    if t == [] then []
    else if IsAscii(t[|t| - 1]) then t
    else if IsLead(t[|t| - 1]) then t[..|t| - 1]
    else CutBack(t[..|t| - 1])
  }

  function Truncated(s: seq<Byte>, maxSize: int): seq<Byte>
    requires maxSize >= 1
  {
    if |s| < maxSize then s else CutBack(s[..maxSize - 1])
  }

  /** The slice s[:maxSize-1] panics when maxSize is not positive. */
  method TruncateStringForTSVectorField(s: seq<Byte>, maxSize: int) returns (r: seq<Byte>)
    requires maxSize >= 1
    ensures r == Truncated(s, maxSize)
  {
    if |s| < maxSize {
      return s;
    }
    var truncated := s[..maxSize - 1];
    var i := |truncated| - 1;
    assert truncated[..i + 1] == truncated;
    while i >= 0
      invariant -1 <= i < |truncated|
      invariant CutBack(truncated) == CutBack(truncated[..i + 1])
    {
      assert truncated[..i + 1][..i] == truncated[..i];
      if truncated[i] & 0x80 == 0 {
        return truncated[..i + 1];
      }
      if truncated[i] & 0xC0 == 0xC0 {
        return truncated[..i];
      }
      i := i - 1;
    }
    return [];
  }

  method TruncateTitleAndContentForTSVectorField(title: seq<Byte>, content: seq<Byte>)
    returns (t: seq<Byte>, c: seq<Byte>)
    ensures t == Truncated(title, 200000) && c == Truncated(content, 500000)
    ensures |t| < 200000 && t <= title && |c| < 500000 && c <= content
    ensures |title| < 200000 ==> t == title
    ensures |content| < 500000 ==> c == content
  {
    t := TruncateStringForTSVectorField(title, TITLE_LIMIT);
    c := TruncateStringForTSVectorField(content, CONTENT_LIMIT);
    TruncatedIsShortPrefix(title, TITLE_LIMIT);
    TruncatedIsShortPrefix(content, CONTENT_LIMIT);
  }

  // ----- Properties -----

  /** Any input, valid or not: a prefix shorter than the limit. */
  lemma {:induction false} CutBackIsPrefix(t: seq<Byte>)
    ensures |CutBack(t)| <= |t| && CutBack(t) == t[..|CutBack(t)|]
  {
    if t != [] && !IsAscii(t[|t| - 1]) && !IsLead(t[|t| - 1]) {
      CutBackIsPrefix(t[..|t| - 1]);
    }
  }

  lemma TruncatedIsShortPrefix(s: seq<Byte>, maxSize: int)
    requires maxSize >= 1
    ensures |Truncated(s, maxSize)| < maxSize
    ensures Truncated(s, maxSize) <= s
  {
    if |s| >= maxSize { CutBackIsPrefix(s[..maxSize - 1]); }
  }

  lemma CharLenOfConcat(a: seq<Byte>, b: seq<Byte>)
    requires 0 < CharLen(a) <= |a|
    ensures CharLen(a + b) == CharLen(a)
  {
  }

  lemma CharLenOfFirst(s: seq<Byte>)
    requires 0 < CharLen(s) <= |s|
    ensures CharLen(s[..CharLen(s)]) == CharLen(s)
  {
  }

  lemma {:induction false} ValidConcat(a: seq<Byte>, b: seq<Byte>)
    requires ValidUtf8(a) && ValidUtf8(b)
    ensures ValidUtf8(a + b)
    decreases |a|
  {
    if a == [] {
      assert a + b == b;
    } else {
      var n := CharLen(a);
      CharLenOfConcat(a, b);
      assert (a + b)[n..] == a[n..] + b;
      ValidConcat(a[n..], b);
    }
  }

  lemma {:induction false} FirstCharacterIsValid(s: seq<Byte>)
    requires 0 < CharLen(s) <= |s|
    ensures ValidUtf8(s[..CharLen(s)])
  {
    CharLenOfFirst(s);
    assert s[..CharLen(s)][CharLen(s)..] == [];
  }

  lemma {:induction false} ValidAfterFirst(s: seq<Byte>, c: nat)
    requires 0 < CharLen(s) <= |s| && c <= |s| - CharLen(s) && ValidUtf8(s[CharLen(s)..][..c])
    ensures ValidUtf8(s[..CharLen(s) + c])
  {
    var n := CharLen(s);
    assert s[..n + c] == s[..n] + s[n..][..c];
    FirstCharacterIsValid(s);
    ValidConcat(s[..n], s[n..][..c]);
  }

  /** The character of a valid text that covers position p starts at b. */
  lemma {:induction false} CharacterAt(s: seq<Byte>, p: nat) returns (b: nat)
    requires ValidUtf8(s) && p < |s|
    ensures b <= p < b + CharLen(s[b..]) <= |s|
    ensures ValidUtf8(s[..b])
    decreases |s|
  {
    var n := CharLen(s);
    if p < n {
      b := 0;
      assert s[0..] == s;
    } else {
      var c := CharacterAt(s[n..], p - n);
      ValidAfterFirst(s, c);
      b := n + c;
      assert s[b..] == s[n..][c..];
    }
  }

  /** A valid prefix ends between two characters: the next byte starts one. */
  lemma {:induction false} ValidPrefixEndsBetweenCharacters(s: seq<Byte>, k: nat)
    requires ValidUtf8(s) && k < |s| && ValidUtf8(s[..k])
    ensures !Tail(s[k])
    decreases k
  {
    if k > 0 {
      var n := CharLen(s[..k]);
      assert CharLen(s) == n;
      assert s[n..][..k - n] == s[..k][n..];
      ValidPrefixEndsBetweenCharacters(s[n..], k - n);
    }
  }

  lemma {:induction false} CutBackStopsAtCharacterStart(t: seq<Byte>, b: nat)
    requires b < |t| && !Tail(t[b])
    requires forall i :: b < i < |t| ==> Tail(t[i])
    ensures CutBack(t) == if t[b] <= 0x7F then t[..b + 1] else t[..b]
  {
    if b == |t| - 1 {
      assert t[..b + 1] == t;
    } else {
      var u := t[..|t| - 1];
      CutBackStopsAtCharacterStart(u, b);
      assert u[..b + 1] == t[..b + 1] && u[..b] == t[..b];
    }
  }

  /** The first byte of a character is no continuation byte, all others are. */
  lemma CharacterBytes(s: seq<Byte>, b: nat)
    requires b <= |s| && CharLen(s[b..]) > 0
    ensures b < |s| && !Tail(s[b]) && (s[b] <= 0x7F <==> CharLen(s[b..]) == 1)
    ensures b + CharLen(s[b..]) <= |s|
    ensures forall i :: b < i < b + CharLen(s[b..]) ==> Tail(s[i])
  {
    var c := s[b..];
    assert c[0] == s[b];
    assert forall i :: 0 < i < CharLen(c) ==> Tail(c[i]);
    assert forall i :: b < i < b + CharLen(c) ==> s[i] == c[i - b];
  }

  /** The exact cut on valid UTF-8: the backward scan stops at the character that covers
      the last byte kept, and drops it unless it is ASCII. */
  lemma TruncatedCutsOneCharacter(s: seq<Byte>, maxSize: int) returns (b: nat)
    requires ValidUtf8(s) && 2 <= maxSize <= |s|
    ensures b <= maxSize - 2 < b + CharLen(s[b..]) <= |s|
    ensures ValidUtf8(s[..b])
    ensures Truncated(s, maxSize) == if s[b] <= 0x7F then s[..b + 1] else s[..b]
  {
    b := CharacterAt(s, maxSize - 2);
    CharacterBytes(s, b);
    var t := s[..maxSize - 1];
    CutBackStopsAtCharacterStart(t, b);
    assert t[..b + 1] == s[..b + 1] && t[..b] == s[..b];
  }

  /** On valid UTF-8 the result is valid UTF-8 and loses at most four bytes of the
      maxSize - 1 that fit. */
  lemma {:induction false} TruncatedIsValidUtf8(s: seq<Byte>, maxSize: int)
    requires ValidUtf8(s) && maxSize >= 1
    ensures ValidUtf8(Truncated(s, maxSize))
    ensures |s| >= maxSize ==> |Truncated(s, maxSize)| >= Max(0, maxSize - 5)
  {
    if 2 <= maxSize <= |s| {
      var b := TruncatedCutsOneCharacter(s, maxSize);
      if s[b] <= 0x7F {
        assert s[b..][0] == s[b];
        assert s[..b + 1] == s[..b] + [s[b]];
        assert CharLen([s[b]]) == 1 && [s[b]][1..] == [];
        ValidConcat(s[..b], [s[b]]);
      }
    }
  }

  /** The longest valid prefix that fits under the limit. */
  ghost predicate LongestValidPrefix(s: seq<Byte>, maxSize: int, r: seq<Byte>) {
    && r <= s && |r| < maxSize && ValidUtf8(r)
    && forall k :: |r| < k <= |s| && k < maxSize ==> !ValidUtf8(s[..k])
  }

  /** The scan is not optimal: it also drops a last multi-byte character that fits
      completely. That is the only case in which a longer valid prefix was available. */
  lemma {:induction false} TruncatedIsLongestExactlyWhen(s: seq<Byte>, maxSize: int)
    requires ValidUtf8(s) && maxSize >= 1
    ensures LongestValidPrefix(s, maxSize, Truncated(s, maxSize)) <==>
            !(2 <= maxSize <= |s| && ValidUtf8(s[..maxSize - 1]) && s[maxSize - 2] > 0x7F)
  {
    var r := Truncated(s, maxSize);
    TruncatedIsShortPrefix(s, maxSize);
    TruncatedIsValidUtf8(s, maxSize);
    if 2 <= maxSize <= |s| {
      var b := TruncatedCutsOneCharacter(s, maxSize);
      CharacterBytes(s, b);
      forall k | |r| < k < maxSize && ValidUtf8(s[..k])
        ensures k == maxSize - 1 && s[b] > 0x7F
      {
        if s[b] > 0x7F && k < maxSize - 1 {
          ValidPrefixEndsBetweenCharacters(s, k);
        }
      }
    }
  }
}
