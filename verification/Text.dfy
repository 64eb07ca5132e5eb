/** Characters, padding and reversal shared by the printing modules. */
module Text {
  import opened Basics

  /** `n` copies of `c`; none when `n` is not positive. */
  function Repeat(c: char, n: int): (r: string)
    ensures |r| == Max(n, 0)
    ensures forall i :: 0 <= i < |r| ==> r[i] == c
  {
    seq(Max(n, 0), _ => c)
  }

  function Spaces(n: int): string { Repeat(' ', n) }

  function Zeros(n: int): string { Repeat('0', n) }

  /** The scratch buffers hold numbers least significant character first. */
  function Reverse(s: string): (r: string)
    ensures |r| == |s|
    ensures forall i :: 0 <= i < |s| ==> r[i] == s[|s| - 1 - i]
  {
    seq(|s|, i requires 0 <= i < |s| => s[|s| - 1 - i])
  }

  /** Taking back the last characters put into a scratch buffer drops the lead of its text. */
  lemma ReverseCut(s: string, n: nat)
    requires n <= |s|
    ensures Reverse(s[..|s| - n]) == Reverse(s)[n..]
  {
  }

  lemma Regroup(a: string, c: char, b: string)
    ensures a + [c] + b == a + ([c] + b)
  {
  }

  lemma Associates(a: string, b: string, c: string)
    ensures a + b + c == a + (b + c)
  {
  }

  lemma OneMore(c: char, n: nat, s: string)
    ensures [c] + (Repeat(c, n) + s) == Repeat(c, n + 1) + s
  {
  }

  /** `s` without its leading occurrences of `c`. */
  function StripLeft(s: string, c: char): (r: string)
    ensures |r| <= |s| && r == s[|s| - |r|..]
    ensures r != "" ==> r[0] != c
    ensures forall i :: 0 <= i < |s| - |r| ==> s[i] == c
  {
    if s != "" && s[0] == c then StripLeft(s[1..], c) else s
  }

  /** `s` without its trailing occurrences of `c`. */
  function StripRight(s: string, c: char): (r: string)
    ensures |r| <= |s| && r == s[..|r|]
    ensures r != "" ==> r[|r| - 1] != c
    ensures forall i :: |r| <= i < |s| ==> s[i] == c
  {
    if s != "" && s[|s| - 1] == c then StripRight(s[..|s| - 1], c) else s
  }

  lemma {:induction false} StripLeftPadding(k: int, s: string)
    requires s != "" ==> s[0] != ' '
    ensures StripLeft(Spaces(k) + s, ' ') == s
    decreases Max(k, 0)
  {
    if k <= 0 {
      assert Spaces(k) + s == s;
    } else {
      assert (Spaces(k) + s)[1..] == Spaces(k - 1) + s;
      StripLeftPadding(k - 1, s);
    }
  }

  lemma {:induction false} StripRightPadding(k: int, s: string)
    requires s != "" ==> s[|s| - 1] != ' '
    ensures StripRight(s + Spaces(k), ' ') == s
    decreases Max(k, 0)
  {
    var t := s + Spaces(k);
    if k <= 0 {
      assert t == s;
    } else {
      assert t[..|t| - 1] == s + Spaces(k - 1);
      StripRightPadding(k - 1, s);
    }
  }

  function Strip(s: string): string { StripRight(StripLeft(s, ' '), ' ') }

  /** Stripping undoes padding around a core that neither starts nor ends with a space. */
  lemma StripPadded(a: int, core: string, b: int)
    requires core != "" && core[0] != ' ' && core[|core| - 1] != ' '
    ensures Strip(Spaces(a) + core + Spaces(b)) == core
  {
    assert Spaces(a) + core + Spaces(b) == Spaces(a) + (core + Spaces(b));
    StripLeftPadding(a, core + Spaces(b));
    StripRightPadding(b, core);
  }
}
