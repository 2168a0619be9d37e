/**
 actions_to_string of lib/cc_utility.c: the renderings of a list of actions in
 host order, joined by ", ", in a buffer of limited size.  How one action is
 rendered is a parameter; an action of an undefined type has a rendering too.
 */
module ActionString {

  import opened Bytes
  import opened Tlv
  import R = Records

  const NUL := '\0'

  type Rendering = seq<byte> -> string

  /** No rendering is empty, or as short as the separator, or contains a terminator. */
  ghost predicate Proper(render: Rendering) {
    forall x {:trigger render(x)} :: |render(x)| > 2 && NUL !in render(x)
  }

  /** The renderings of the elements cs, separated by ", ". */
  function Join(render: Rendering, cs: seq<seq<byte>>): string {
    if cs == [] then ""
    else if |cs| == 1 then render(cs[0])
    else Join(render, cs[..|cs| - 1]) + ", " + render(cs[|cs| - 1])
  }

  predicate Defined(cs: seq<seq<byte>>) {
    forall i :: 0 <= i < |cs| ==> |cs[i]| >= 2 && R.Defined(Get16(Host, cs[i], 0))
  }

  /** The buffer holds exactly text, filled up with terminators. */
  ghost predicate Holds(s: seq<char>, text: string) {
    && |text| < |s| && NUL !in text
    && s[..|text|] == text && forall i :: |text| <= i < |s| ==> s[i] == NUL
  }

  /** What snprintf leaves of s: as much of text as fits in `size` bytes at p, and a terminator. */
  function Printed(s: seq<char>, p: nat, size: nat, text: string): (r: seq<char>)
    requires p + size <= |s|
    ensures |r| == |s|
    ensures forall i {:trigger r[i]} :: 0 <= i < |s| ==>
              r[i] == if p <= i < p + size && i - p < |text| && i + 1 < p + size then text[i - p]
                      else if p <= i < p + size && (i - p == |text| || i + 1 == p + size) && i - p <= |text| then NUL
                      else s[i]
  {
    seq(|s|, i requires 0 <= i < |s| =>
      if p <= i < p + size && i - p < |text| && i + 1 < p + size then text[i - p]
      else if p <= i < p + size && (i - p == |text| || i + 1 == p + size) && i - p <= |text| then NUL
      else s[i])
  }

  method Snprintf(str: array<char>, p: nat, size: nat, text: string) returns (length: nat)
    requires p + size <= str.Length
    modifies str
    ensures length == |text| && str[..] == Printed(old(str[..]), p, size, text)
  {
    length := |text|;
    if size > 0 {
      var n := if |text| < size - 1 then |text| else size - 1;
      forall i | 0 <= i < n {
        str[p + i] := text[i];
      }
      str[p + n] := NUL;
    }
  }

  method Strlen(str: array<char>) returns (n: nat)
    requires str.Length > 0 && str[str.Length - 1] == NUL
    ensures n < str.Length && str[n] == NUL && forall i :: 0 <= i < n ==> str[i] != NUL
  {
    n := 0;
    while str[n] != NUL
      invariant n < str.Length && forall i :: 0 <= i < n ==> str[i] != NUL
      decreases str.Length - n
    {
      n := n + 1;
    }
  }

  lemma HoldsLength(s: seq<char>, text: string, n: nat)
    requires Holds(s, text) && n < |s| && s[n] == NUL && forall i :: 0 <= i < n ==> s[i] != NUL
    ensures n == |text|
  {
    forall i | 0 <= i < |text| ensures s[i] != NUL {
      assert s[i] == s[..|text|][i] == text[i] && text[i] in text;
    }
    assert s[|text|] == NUL;
  }

  /** Printing behind what the buffer holds appends it, if there is room. */
  lemma PrintBehind(s: seq<char>, held: string, text: string)
    requires Holds(s, held) && NUL !in text && |held| + |text| < |s|
    ensures Holds(Printed(s, |held|, |s| - |held|, text), held + text)
  {
    var r := Printed(s, |held|, |s| - |held|, text);
    assert r[..|held + text|] == held + text;
  }

  lemma {:induction false} JoinGrows(render: Rendering, cs: seq<seq<byte>>, n: nat)
    requires n <= |cs|
    ensures |Join(render, cs[..n])| <= |Join(render, cs)|
    decreases |cs|
  {
    if n < |cs| {
      var most := cs[..|cs| - 1];
      JoinGrows(render, most, n);
      assert most[..n] == cs[..n];
      assert |cs| == 1 ==> most == [];
    } else {
      assert cs[..n] == cs;
    }
  }

  /** One more action: the separator only between two of them. */
  lemma JoinNext(render: Rendering, cs: seq<seq<byte>>, n: nat)
    requires n < |cs|
    ensures Join(render, cs[..n + 1]) == if n == 0 then render(cs[0]) else Join(render, cs[..n]) + ", " + render(cs[n])
  {
    assert cs[..n + 1][..n] == cs[..n];
  }

  lemma {:induction false} JoinNonempty(render: Rendering, cs: seq<seq<byte>>)
    requires Proper(render)
    ensures (Join(render, cs) == "" <==> cs == []) && NUL !in Join(render, cs)
  {
    if |cs| > 1 {
      JoinNonempty(render, cs[..|cs| - 1]);
    }
  }

  /** The body of the loop for one action x, after `held` has been written. */
  method PrintAction(render: Rendering, x: seq<byte>, str: array<char>, ghost held: string) returns (ret: bool)
    requires Proper(render) && |x| >= 2 && str.Length > 0 && str[str.Length - 1] == NUL
    modifies str
    ensures str[str.Length - 1] == NUL
    ensures old(Holds(str[..], held)) && R.Defined(Get16(Host, x, 0)) ==>
              var all := if held == "" then render(x) else held + ", " + render(x);
              if ret then Holds(str[..], all) else |all| >= str.Length
  {
    ghost var s := str[..];
    var current := Strlen(str);
    var remaining := str.Length - current;
    if Holds(s, held) {
      HoldsLength(s, held, current);
    }
    ghost var h := held;
    if current > 0 && remaining > 2 {
      var _ := Snprintf(str, current, remaining, ", ");
      if Holds(s, held) {
        PrintBehind(s, held, ", ");
      }
      remaining, current, h := remaining - 2, current + 2, held + ", ";
    }
    ghost var t := str[..];
    var length := Snprintf(str, current, remaining, render(x));
    if Holds(t, h) && |h| == current && length < remaining {
      PrintBehind(t, h, render(x));
    }
    ret := true;
    if R.Defined(Get16(Host, x, 0)) {
      ret := length < remaining;
    }
  }

  method PrintNext(render: Rendering, actions: seq<byte>, offset: nat, str: array<char>, ghost cs: seq<seq<byte>>,
                   ghost n: nat)
    returns (ret: bool, len: u16)
    requires Proper(render) && offset < |actions| && Standing(Host, ACTIONS, actions, offset, cs, n)
    requires str.Length > 0 && str[str.Length - 1] == NUL && Printing(render, cs, n, str[..])
    modifies str
    ensures str[str.Length - 1] == NUL
    ensures 8 <= len && offset + len <= |actions| && Standing(Host, ACTIONS, actions, offset + len, cs, n + 1)
    ensures if ret then Printing(render, cs, n + 1, str[..]) else Defined(cs) ==> |Join(render, cs)| >= str.Length
  {
    StandingNext(Host, ACTIONS, actions, offset, cs, n);
    assert ACTIONS.at == 2 && ACTIONS.min == 8;
    hide *;
    len := Get16(Host, actions, offset + 2);
    ghost var held, s := Join(render, cs[..n]), str[..];
    ret := PrintAction(render, actions[offset..offset + len], str, held);
    PrintedNext(render, cs, n, s, str[..], ret);
  }

  /** What a turn does to the string, in terms of the whole list. */
  lemma PrintedNext(render: Rendering, cs: seq<seq<byte>>, n: nat, s: seq<char>, t: seq<char>, ret: bool)
    requires Proper(render) && n < |cs| && |cs[n]| >= 2 && Printing(render, cs, n, s)
    requires Holds(s, Join(render, cs[..n])) && R.Defined(Get16(Host, cs[n], 0)) ==>
               var held := Join(render, cs[..n]);
               var all := if held == "" then render(cs[n]) else held + ", " + render(cs[n]);
               if ret then Holds(t, all) else |all| >= |t|
    ensures if ret then Printing(render, cs, n + 1, t) else Defined(cs) ==> |Join(render, cs)| >= |t|
  {
    JoinNext(render, cs, n);
    JoinNonempty(render, cs[..n]);
    JoinGrows(render, cs, n + 1);
    assert |cs[..n]| == n;
    hide Join, Holds;
  }

  /** Unless some action is of an undefined type, the first n have been written in full. */
  ghost predicate Printing(render: Rendering, cs: seq<seq<byte>>, n: nat, s: seq<char>) {
    n <= |cs| && (Defined(cs) ==> Holds(s, Join(render, cs[..n])))
  }

  lemma PrintingEnd(render: Rendering, actions: seq<byte>, offset: nat, cs: seq<seq<byte>>, n: nat, s: seq<char>)
    requires Standing(Host, ACTIONS, actions, offset, cs, n) && Printing(render, cs, n, s) && |actions| - offset < 8
    ensures Defined(cs) ==> Holds(s, Join(render, cs)) && |Join(render, cs)| < |s|
  {
    StandingEnd(Host, ACTIONS, actions, offset, cs, n);
    if offset < |actions| {
      StandingNext(Host, ACTIONS, actions, offset, cs, n);
    }
    assert cs[..n] == cs;
  }

  /** The loop, in a string that holds nothing yet. */
  method PrintAll(render: Rendering, actions: seq<byte>, str: array<char>, ghost cs: seq<seq<byte>>) returns (ret: bool)
    requires Proper(render) && Standing(Host, ACTIONS, actions, 0, cs, 0)
    requires str.Length > 0 && str[str.Length - 1] == NUL && Printing(render, cs, 0, str[..])
    modifies str
    ensures str[str.Length - 1] == NUL
    ensures if ret then Defined(cs) ==> Holds(str[..], Join(render, cs)) && |Join(render, cs)| < str.Length
            else Defined(cs) ==> |Join(render, cs)| >= str.Length
  {
    hide *;
    ret := true;
    ghost var n := 0;
    var offset := 0;
    while |actions| - offset >= 8
      invariant 0 <= offset <= |actions| && Standing(Host, ACTIONS, actions, offset, cs, n)
      invariant ret && str[str.Length - 1] == NUL && Printing(render, cs, n, str[..])
      decreases |actions| - offset
    {
      var len;
      ret, len := PrintNext(render, actions, offset, str, cs, n);
      if !ret {
        return;
      }
      offset, n := offset + len, n + 1;
    }
    PrintingEnd(render, actions, offset, cs, n, str[..]);
  }

  /** The result is true exactly if the joined renderings fit with their terminator, and
      then the string is exactly that. */
  method ActionsToString(render: Rendering, actions: seq<byte>, str: array<char>) returns (ret: bool)
    requires Proper(render) && Tiled(Host, ACTIONS, actions) && |actions| <= 0xffff && str.Length > 0
    modifies str
    ensures str[str.Length - 1] == NUL
    ensures var cs := Split(Host, ACTIONS, actions);
            Defined(cs) ==>
              && (ret <==> |Join(render, cs)| < str.Length)
              && (ret ==> Holds(str[..], Join(render, cs)))
  {
    forall i | 0 <= i < str.Length {
      str[i] := NUL;
    }
    ghost var cs := Split(Host, ACTIONS, actions);
    StandingStart(Host, ACTIONS, actions);
    assert Printing(render, cs, 0, str[..]);
    hide *;
    ret := PrintAll(render, actions, str, cs);
    ghost var s := str[..];
    str[str.Length - 1] := NUL;
    assert str[..] == s;
  }
}
