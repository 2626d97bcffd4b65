/** Python's `lower` and `upper` over ASCII, and the folded spelling of a trimmed text. */
module Casing {
  import opened Trimming

  function LowerChar(c: char): char {
    if 'A' <= c <= 'Z' then (c as int + 32) as char else c
  }

  function Lower(s: string): (r: string)
    ensures |r| == |s|
    ensures forall i :: 0 <= i < |s| ==> r[i] == LowerChar(s[i])
  {
    seq(|s|, i requires 0 <= i < |s| => LowerChar(s[i]))
  }

  function UpperChar(c: char): char {
    if 'a' <= c <= 'z' then (c as int - 32) as char else c
  }

  function Upper(s: string): (r: string)
    ensures |r| == |s|
    ensures forall i :: 0 <= i < |s| ==> r[i] == UpperChar(s[i])
  {
    seq(|s|, i requires 0 <= i < |s| => UpperChar(s[i]))
  }

  /** Each of the 26 letters folds to the same letter of the other case, and nothing else changes. */
  lemma OnlyLettersFold(k: nat, c: char)
    ensures k < 26 ==>
              && LowerChar(('A' as int + k) as char) == ('a' as int + k) as char
              && UpperChar(('a' as int + k) as char) == ('A' as int + k) as char
    ensures !('A' <= c <= 'Z') ==> LowerChar(c) == c
    ensures !('a' <= c <= 'z') ==> UpperChar(c) == c
  {
  }

  /** `strip().lower()`. */
  function Normal(s: string): string {
    Lower(Strip(s))
  }

  lemma NormalIsTrimmed(s: string)
    ensures Trimmed(Normal(s))
  {
    StripTrims(s);
  }

  lemma NormalIsStable(s: string)
    ensures Normal(Normal(s)) == Normal(s)
  {
    NormalIsTrimmed(s);
    TrimmedStays(Normal(s));
    assert Lower(Normal(s)) == Normal(s);
  }
}
