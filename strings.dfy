/**
 * The string operations the game applies to a submitted word: lowercasing,
 * trimming whitespace and newlines from both ends, finding the first
 * occurrence of a character and removing the character at a position.
 * Characters are Dafny `char`s; lowercasing and trimming cover ASCII only.
 */
module Strings {

  datatype Option<T> = None | Some(value: T)

  /** Whitespace and newline characters: space, tab, line feed, vertical tab, form feed and carriage return. */
  predicate IsWhitespace(c: char) {
    c == ' ' || '\t' <= c <= '\r'
  }

  predicate IsUpper(c: char) {
    'A' <= c <= 'Z'
  }

  /** Lowercases one character: an upper-case ASCII letter becomes its lower-case letter, anything else is kept. */
  function LowerChar(c: char): (d: char)
    ensures !IsUpper(d)
    ensures !IsUpper(c) ==> d == c
    ensures IsUpper(c) ==> 'a' <= d <= 'z' && d as int - c as int == 'a' as int - 'A' as int
    ensures IsWhitespace(d) <==> IsWhitespace(c)
  {
    if IsUpper(c) then (c as int - 'A' as int + 'a' as int) as char else c
  }

  /** `lowercased()`. */
  function Lowercased(s: string): string {
    if s == [] then [] else [LowerChar(s[0])] + Lowercased(s[1..])
  }

  /** Drops leading whitespace. */
  function TrimStart(s: string): string {
    if s != [] && IsWhitespace(s[0]) then TrimStart(s[1..]) else s
  }

  /** Drops trailing whitespace. */
  function TrimEnd(s: string): string {
    if s != [] && IsWhitespace(s[|s| - 1]) then TrimEnd(s[..|s| - 1]) else s
  }

  /** Lowercasing works character by character and keeps the length. */
  lemma {:induction false} LowercasedPointwise(s: string)
    ensures |Lowercased(s)| == |s|
    ensures forall i :: 0 <= i < |s| ==> Lowercased(s)[i] == LowerChar(s[i])
  {
    if s != [] {
      LowercasedPointwise(s[1..]);
    }
  }

  /** Trimming the start leaves a suffix of `s` that does not start with whitespace; everything dropped is whitespace. */
  lemma {:induction false} TrimStartSpec(s: string)
    ensures |TrimStart(s)| <= |s| && TrimStart(s) == s[|s| - |TrimStart(s)|..]
    ensures forall k :: 0 <= k < |s| - |TrimStart(s)| ==> IsWhitespace(s[k])
    ensures TrimStart(s) == [] || !IsWhitespace(TrimStart(s)[0])
  {
    if s != [] && IsWhitespace(s[0]) {
      var t := s[1..];
      TrimStartSpec(t);
      var r := TrimStart(t);
      assert TrimStart(s) == r;
      assert t[|t| - |r|..] == s[|s| - |r|..];
      forall k | 0 <= k < |s| - |r| ensures IsWhitespace(s[k]) {
        if k > 0 {
          assert s[k] == t[k - 1];
        }
      }
    }
  }

  /** Trimming the end leaves a prefix of `s` that does not end with whitespace; everything dropped is whitespace. */
  lemma {:induction false} TrimEndSpec(s: string)
    ensures |TrimEnd(s)| <= |s| && TrimEnd(s) == s[..|TrimEnd(s)|]
    ensures forall k :: |TrimEnd(s)| <= k < |s| ==> IsWhitespace(s[k])
    ensures TrimEnd(s) == [] || !IsWhitespace(TrimEnd(s)[|TrimEnd(s)| - 1])
  {
    if s != [] && IsWhitespace(s[|s| - 1]) {
      var t := s[..|s| - 1];
      TrimEndSpec(t);
      var r := TrimEnd(t);
      assert TrimEnd(s) == r;
      assert t[..|r|] == s[..|r|];
      forall k | |r| <= k < |s| ensures IsWhitespace(s[k]) {
        if k < |s| - 1 {
          assert s[k] == t[k];
        }
      }
    }
  }

  /** `trimmingCharacters(in: .whitespacesAndNewlines)`. */
  function Trimmed(s: string): string {
    TrimEnd(TrimStart(s))
  }

  /** The normalisation applied to the text field before any guard: lowercase, then trim. */
  function Normalised(s: string): string {
    Trimmed(Lowercased(s))
  }

  /** A normal answer has no upper-case letter and no whitespace at either end. */
  predicate IsNormal(s: string) {
    && (forall i :: 0 <= i < |s| ==> !IsUpper(s[i]))
    && (s == [] || (!IsWhitespace(s[0]) && !IsWhitespace(s[|s| - 1])))
  }

  /** Trimming keeps a string free of upper-case letters. */
  lemma TrimmedKeepsLower(l: string)
    requires forall i :: 0 <= i < |l| ==> !IsUpper(l[i])
    ensures forall i :: 0 <= i < |Trimmed(l)| ==> !IsUpper(Trimmed(l)[i])
  {
    var t := TrimStart(l);
    var r := TrimEnd(t);
    TrimStartSpec(l);
    TrimEndSpec(t);
    forall i | 0 <= i < |r| ensures !IsUpper(r[i]) {
      assert r[i] == t[i] == l[|l| - |t| + i];
    }
  }

  /** The trimmed string neither starts nor ends with whitespace. */
  lemma TrimmedEnds(l: string)
    ensures Trimmed(l) == [] || (!IsWhitespace(Trimmed(l)[0]) && !IsWhitespace(Trimmed(l)[|Trimmed(l)| - 1]))
  {
    var t := TrimStart(l);
    var r := TrimEnd(t);
    TrimStartSpec(l);
    TrimEndSpec(t);
    if r != [] {
      assert r[0] == t[0];
    }
  }

  /** Whatever the text field holds, the normalised answer is normal. */
  lemma NormalisedIsNormal(s: string)
    ensures IsNormal(Normalised(s))
  {
    LowercasedPointwise(s);
    TrimmedKeepsLower(Lowercased(s));
    TrimmedEnds(Lowercased(s));
  }

  /** Normalising an answer that is already normal gives it back unchanged. */
  lemma NormalIsFixedPoint(s: string)
    requires IsNormal(s)
    ensures Normalised(s) == s
  {
    var l := Lowercased(s);
    LowercasedPointwise(s);
    assert l == s;
    assert TrimStart(s) == s;
    assert TrimEnd(s) == s;
  }

  /** Normalisation is idempotent. */
  lemma NormalisedIdempotent(s: string)
    ensures Normalised(Normalised(s)) == Normalised(s)
  {
    NormalisedIsNormal(s);
    NormalIsFixedPoint(Normalised(s));
  }

  /** `firstIndex(of:)`: the position of the first occurrence of `c`, or nothing when `c` does not occur. */
  function FirstIndex(s: string, c: char): (r: Option<nat>)
    ensures r.None? <==> c !in s
    ensures r.Some? ==> r.value < |s| && s[r.value] == c && c !in s[..r.value]
  {
    if s == [] then None
    else if s[0] == c then Some(0)
    else match FirstIndex(s[1..], c)
      case None => None
      case Some(k) =>
        assert s[..k + 1] == [s[0]] + s[1..][..k];
        Some(k + 1)
  }

  /** `remove(at:)`: the string one character shorter, with exactly that one occurrence taken out. */
  function RemoveAt(s: string, p: nat): (r: string)
    requires p < |s|
    ensures |r| == |s| - 1
    ensures multiset(r) == multiset(s) - multiset{s[p]}
    ensures r[..p] == s[..p] && r[p..] == s[p + 1..]
  {
    assert s == s[..p] + [s[p]] + s[p + 1..];
    s[..p] + s[p + 1..]
  }
}
