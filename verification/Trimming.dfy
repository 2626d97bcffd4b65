/** Python's `strip`, `lstrip` and `rstrip` over its white space. */
module Trimming {

  predicate Blank(c: char) {
    || 9 <= c as int <= 13 || 28 <= c as int <= 32 || c as int == 0x85 || c as int == 0xA0
    || c as int == 0x1680 || 0x2000 <= c as int <= 0x200A || c as int == 0x2028 || c as int == 0x2029
    || c as int == 0x202F || c as int == 0x205F || c as int == 0x3000
  }

  function DropBlanks(s: string): (r: string)
    ensures |r| <= |s|
    ensures r != "" ==> !Blank(r[0])
  {
    if s == "" || !Blank(s[0]) then s else DropBlanks(s[1..])
  }

  function DropLastBlanks(s: string): (r: string)
    ensures |r| <= |s| && s[..|r|] == r
    ensures r != "" ==> !Blank(r[|r| - 1])
  {
    if s == "" || !Blank(s[|s| - 1]) then s else DropLastBlanks(s[..|s| - 1])
  }

  function Strip(s: string): string {
    DropLastBlanks(DropBlanks(s))
  }

  lemma Associate<T>(a: seq<T>, b: seq<T>, c: seq<T>)
    ensures a + (b + c) == a + b + c
  {
  }

  lemma {:induction false} DropBlanksThenBlank(a: string)
    ensures DropBlanks(a) == "" ==> DropBlanks(a + " ") == ""
    ensures DropBlanks(a) != "" ==> DropBlanks(a + " ") == DropBlanks(a) + " "
  {
    if a == "" {
      assert a + " " == " " && " "[1..] == "";
    } else if Blank(a[0]) {
      assert (a + " ")[1..] == a[1..] + " ";
      DropBlanksThenBlank(a[1..]);
    }
  }

  /** Trimming the end does not reach back over a solid start. */
  lemma {:induction false} DropLastKeepsHead(h: string, s: string)
    requires s != "" && !Blank(s[0])
    ensures DropLastBlanks(h + s) == h + DropLastBlanks(s)
    decreases |s|
  {
    if Blank(s[|s| - 1]) {
      assert (h + s)[..|h + s| - 1] == h + s[..|s| - 1];
      DropLastKeepsHead(h, s[..|s| - 1]);
    }
  }

  lemma {:induction false} DropLastKeepsSolid(h: string, s: string)
    requires |h| == 1 && !Blank(h[0])
    ensures DropLastBlanks(h + s) == h + DropLastBlanks(s)
    decreases |s|
  {
    if s == "" {
      assert h + s == h;
    } else if Blank(s[|s| - 1]) {
      assert (h + s)[..|h + s| - 1] == h + s[..|s| - 1];
      DropLastKeepsSolid(h, s[..|s| - 1]);
    }
  }

  /** Trimming both ends of a text is the same in either order. */
  lemma {:induction false} StripEitherOrder(s: string)
    ensures Strip(s) == DropBlanks(DropLastBlanks(s))
    decreases |s|
  {
    if s == "" {
    } else if Blank(s[0]) {
      StripEitherOrder(s[1..]);
      if DropBlanks(s) == "" {
        AllBlank(s);
      } else {
        DropLastOfTail(s);
      }
    } else {
      DropLastKeepsSolid(s[..1], s[1..]);
      assert s[..1] + s[1..] == s;
    }
  }

  lemma {:induction false} AllBlank(s: string)
    requires DropBlanks(s) == ""
    ensures DropLastBlanks(s) == ""
    ensures forall i :: 0 <= i < |s| ==> Blank(s[i])
  {
    if s != "" {
      assert DropBlanks(s[1..]) == "";
      AllBlank(s[1..]);
      assert forall i :: 1 <= i < |s| ==> s[i] == s[1..][i - 1];
      BlankTail(s);
    }
  }

  lemma {:induction false} BlankTail(s: string)
    requires forall i :: 0 <= i < |s| ==> Blank(s[i])
    ensures DropLastBlanks(s) == "" && DropBlanks(s) == ""
  {
    if s != "" {
      BlankTail(s[..|s| - 1]);
      BlankTail(s[1..]);
    }
  }

  lemma {:induction false} DropLastOfTail(s: string)
    requires s != "" && DropBlanks(s[1..]) != ""
    ensures DropLastBlanks(s) != "" && DropLastBlanks(s)[1..] == DropLastBlanks(s[1..])
    decreases |s|
  {
    var n := |s| - 1;
    if Blank(s[n]) {
      var init := s[..n];
      assert s[1..][..n - 1] == init[1..];
      if DropBlanks(init[1..]) == "" {
        AllBlank(init[1..]);
        assert forall i :: 0 <= i < |s[1..]| - 1 ==> s[1..][i] == init[1..][i];
        BlankTail(s[1..]);
      }
      DropLastOfTail(init);
    }
  }

  predicate Trimmed(s: string) {
    s == "" || (!Blank(s[0]) && !Blank(s[|s| - 1]))
  }

  lemma StripTrims(s: string)
    ensures Trimmed(Strip(s))
  {
  }

  lemma TrimmedStays(s: string)
    requires Trimmed(s)
    ensures Strip(s) == s
  {
  }

  lemma {:induction false} BlanksBefore(pad: string, s: string)
    requires forall i :: 0 <= i < |pad| ==> Blank(pad[i])
    ensures DropBlanks(pad + s) == DropBlanks(s)
  {
    if pad == "" {
      assert pad + s == s;
    } else {
      assert (pad + s)[1..] == pad[1..] + s;
      BlanksBefore(pad[1..], s);
    }
  }
}
