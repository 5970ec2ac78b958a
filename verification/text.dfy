/** String helpers the source takes from the .NET library: `ToLower`,
    `EndsWith` and `Trim(char[])`. Lower-casing is modelled for ASCII
    letters only. */
module Text {

  predicate IsUpper(c: char) { 'A' <= c <= 'Z' }

  /** Neither an upper- nor a lower-case ASCII letter. */
  predicate NonLetter(c: char) { !IsUpper(c) && !('a' <= c <= 'z') }

  /** `char.ToLower` restricted to ASCII letters. */
  function LowerChar(c: char): (r: char)
    ensures IsUpper(c) ==> r as int == c as int + 32
    ensures !IsUpper(c) ==> r == c
  {
    if IsUpper(c) then (c as int + 32) as char else c
  }

  /** `string.ToLower`: every character lowered, length kept. */
  function ToLower(s: string): (r: string)
    ensures |r| == |s|
    ensures forall i :: 0 <= i < |s| ==> r[i] == LowerChar(s[i])
  {
    if |s| == 0 then "" else [LowerChar(s[0])] + ToLower(s[1..])
  }

  /** Lowering twice is lowering once, so a name stored lower-cased is found
      again by a lower-cased lookup. */
  lemma ToLowerIdempotent(s: string)
    ensures ToLower(ToLower(s)) == ToLower(s)
  {
  }

  /** `s.EndsWith(suffix)` as a character-by-character comparison. .NET's
      one-argument overload compares with the current culture; this model
      does not. */
  predicate EndsWith(s: string, suffix: string) {
    |suffix| <= |s| && s[|s| - |suffix|..] == suffix
  }

  /** Removes every leading occurrence of `ch`. */
  function TrimStart(s: string, ch: char): (r: string)
    ensures |r| <= |s| && r == s[|s| - |r|..]
    ensures forall i :: 0 <= i < |s| - |r| ==> s[i] == ch
    ensures |r| > 0 ==> r[0] != ch
  {
    if |s| > 0 && s[0] == ch then TrimStart(s[1..], ch) else s
  }

  /** Removes every trailing occurrence of `ch`. */
  function TrimEnd(s: string, ch: char): (r: string)
    ensures |r| <= |s| && r == s[..|r|]
    ensures forall i :: |r| <= i < |s| ==> s[i] == ch
    ensures |r| > 0 ==> r[|r| - 1] != ch
  {
    if |s| > 0 && s[|s| - 1] == ch then TrimEnd(s[..|s| - 1], ch) else s
  }

  /** `s.Trim(new char[] { ch })`: leading and trailing occurrences removed. */
  function Trim(s: string, ch: char): string {
    TrimEnd(TrimStart(s, ch), ch)
  }

  /** `Trim` keeps a contiguous middle part of `s`, everything cut off on
      either side is `ch`, and the kept part neither starts nor ends with it. */
  lemma TrimCharacterized(s: string, ch: char)
    ensures var r := Trim(s, ch);
      exists i, j :: 0 <= i <= j <= |s| && r == s[i..j]
        && (forall k :: 0 <= k < i ==> s[k] == ch)
        && (forall k :: j <= k < |s| ==> s[k] == ch)
    ensures var r := Trim(s, ch); |r| > 0 ==> r[0] != ch && r[|r| - 1] != ch
  {
    var a := TrimStart(s, ch);
    var r := TrimEnd(a, ch);
    var i := |s| - |a|;
    var j := i + |r|;
    assert a == s[i..];
    assert r == a[..|r|];
    assert r == s[i..j];
    forall k | j <= k < |s|
      ensures s[k] == ch
    {
      assert s[k] == a[k - i];
    }
  }

  /** `r` is `s` with some leading and some trailing characters cut off,
      every one of them `ch`. */
  ghost predicate CutFrom(r: string, s: string, ch: char) {
    exists i, j :: 0 <= i <= j <= |s| && r == s[i..j]
      && (forall k :: 0 <= k < i ==> s[k] == ch)
      && (forall k :: j <= k < |s| ==> s[k] == ch)
  }

  /** `Trim` only cuts `ch` off the ends. */
  lemma TrimCutFrom(s: string, ch: char)
    ensures CutFrom(Trim(s, ch), s, ch)
  {
    TrimCharacterized(s, ch);
  }

  /** Lowering one character commutes with comparing it to a non-letter. */
  lemma LowerCharKeeps(c: char, ch: char)
    requires NonLetter(ch)
    ensures LowerChar(c) == ch <==> c == ch
  {
  }

  lemma {:induction false} TrimStartLower(s: string, ch: char)
    requires NonLetter(ch)
    ensures ToLower(TrimStart(s, ch)) == TrimStart(ToLower(s), ch)
    decreases |s|
  {
    if |s| > 0 {
      LowerCharKeeps(s[0], ch);
      assert ToLower(s)[1..] == ToLower(s[1..]);
      if s[0] == ch {
        TrimStartLower(s[1..], ch);
      }
    }
  }

  lemma {:induction false} TrimEndLower(s: string, ch: char)
    requires NonLetter(ch)
    ensures ToLower(TrimEnd(s, ch)) == TrimEnd(ToLower(s), ch)
    decreases |s|
  {
    if |s| > 0 {
      LowerCharKeeps(s[|s| - 1], ch);
      var p := s[..|s| - 1];
      assert ToLower(s)[..|s| - 1] == ToLower(p);
      if s[|s| - 1] == ch {
        TrimEndLower(p, ch);
      }
    }
  }

  /** Trimming a non-letter and lowering commute: lower-then-trim and
      trim-then-lower normalize a request path identically. */
  lemma TrimLowerCommute(s: string, ch: char)
    requires NonLetter(ch)
    ensures Trim(ToLower(s), ch) == ToLower(Trim(s, ch))
  {
    TrimStartLower(s, ch);
    TrimEndLower(TrimStart(s, ch), ch);
  }

  /** Trimming twice is trimming once. */
  lemma TrimIdempotent(s: string, ch: char)
    ensures Trim(Trim(s, ch), ch) == Trim(s, ch)
  {
    TrimCharacterized(s, ch);
    var r := Trim(s, ch);
    assert TrimStart(r, ch) == r;
    assert TrimEnd(r, ch) == r;
  }

  /** A string without upper-case letters is its own lower case. */
  lemma LowerNoUpper(s: string)
    requires forall i :: 0 <= i < |s| ==> !IsUpper(s[i])
    ensures ToLower(s) == s
  {
  }
}
