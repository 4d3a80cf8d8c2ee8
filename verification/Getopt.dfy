/** The option scanner of GameLib/getopt.c.

    The strings of `argv` are its elements and the null pointer after them is the end of the array.
    Option strings here have no ':', so no option takes an argument. */
module Getopt {
  import opened Common

  /** What the first character of the option string and POSIXLY_CORRECT ask for. */
  datatype Mode = InOrder | Posix | Permute

  function ModeOf(optstr: string, posixlyCorrect: bool): Mode {
    if optstr != [] && optstr[0] == '-' then InOrder
    else if posixlyCorrect || (optstr != [] && optstr[0] == '+') then Posix
    else Permute
  }

  /** What one call finds. */
  datatype Code = End | Operand(text: string) | Known(letter: char) | Unknown(letter: char)

  /** The value `getopt` returns for it. */
  function ValueOf(c: Code): int {
    match c
    case End => -1
    case Operand(_) => 1
    case Known(letter) => Signed(256, letter as int)
    case Unknown(_) => '?' as int
  }

  /** The arguments in the middle of a scan: those that have been passed, those still to be looked at,
      and those moved to the end; the place inside the compound option at the head of `rest`. */
  datatype View = View(done: seq<string>, rest: seq<string>, moved: seq<string>, offset: nat, dashdash: bool)

  predicate IsOption(arg: string) {
    |arg| >= 2 && arg[0] == '-'
  }

  predicate Fits(v: View) {
    v.offset >= 1 && (v.offset > 1 ==> v.rest != [] && IsOption(v.rest[0]) && v.offset < |v.rest[0]| && !v.dashdash)
  }

  function Args(v: View): seq<string> {
    v.done + v.rest + v.moved
  }

  /** Passing over the argument at the head. */
  function Pass(v: View): View
    requires v.rest != []
  {
    v.(done := v.done + [v.rest[0]], rest := v.rest[1..], offset := 1)
  }

  /** Moving the argument at the head to the end. */
  function Postpone(v: View): View
    requires v.rest != []
  {
    v.(rest := v.rest[1..], moved := v.moved + [v.rest[0]])
  }

  function Letters(optstr: string): string {
    if optstr != [] && optstr[0] == '-' then optstr[1..] else optstr
  }

  /** Reading one letter of the option at the head. */
  function ReadLetter(v: View, optstr: string): (View, Code)
    requires Fits(v) && v.rest != [] && IsOption(v.rest[0])
  {
    var letter := v.rest[0][v.offset];
    if letter !in Letters(optstr) then (Pass(v), Unknown(letter))
    else if v.offset + 1 == |v.rest[0]| then (Pass(v), Known(letter))
    else (v.(offset := v.offset + 1), Known(letter))
  }

  function SkipDashes(v: View): View {
    if v.rest != [] && v.rest[0] == "--" then Pass(v).(dashdash := true) else v
  }

  /** One call of `getopt`. */
  function Call(v: View, mode: Mode, optstr: string): (r: (View, Code))
    requires Fits(v)
    ensures Fits(r.0)
    decreases |v.rest|
  {
    var w := SkipDashes(v);
    if w.rest == [] then (w, End)
    else if !w.dashdash && IsOption(w.rest[0]) then ReadLetter(w, optstr)
    else
      match mode
      case InOrder => (Pass(w), Operand(w.rest[0]))
      case Posix => (w.(rest := [], moved := w.rest + w.moved), End)
      case Permute => Call(Postpone(w), mode, optstr)
  }

  /** A first call with new arguments. */
  function Start(args: seq<string>): (v: View)
    requires args != []
    ensures Fits(v) && Args(v) == args
  {
    View(args[..1], args[1..], [], 1, false)
  }

  lemma PostponeKeeps(v: View)
    requires v.rest != []
    ensures multiset(Args(Postpone(v))) == multiset(Args(v))
  {
    assert v.rest == [v.rest[0]] + v.rest[1..];
  }

  lemma PassKeeps(v: View)
    requires v.rest != []
    ensures Args(Pass(v)) == Args(v)
  {
    assert v.rest == [v.rest[0]] + v.rest[1..];
  }

  /** No call loses, repeats or changes an argument. */
  lemma {:induction false} CallPermutes(v: View, mode: Mode, optstr: string)
    requires Fits(v)
    ensures multiset(Args(Call(v, mode, optstr).0)) == multiset(Args(v))
    ensures mode != Permute ==> Args(Call(v, mode, optstr).0) == Args(v)
    decreases |v.rest|
  {
    hide Args, Letters;
    var w := SkipDashes(v);
    SkipKeeps(v);
    if w.rest != [] {
      PassKeeps(w);
      GiveUpKeeps(w);
      if mode == Permute && (w.dashdash || !IsOption(w.rest[0])) {
        PostponeKeeps(w);
        CallPermutes(Postpone(w), mode, optstr);
      }
    }
  }

  lemma GiveUpKeeps(w: View)
    ensures Args(w.(rest := [], moved := w.rest + w.moved)) == Args(w)
    ensures forall n: nat :: Args(w.(offset := n)) == Args(w)
  {
    assert w.done + w.rest + w.moved == w.done + [] + (w.rest + w.moved);
  }

  lemma SkipKeeps(v: View)
    ensures Args(SkipDashes(v)) == Args(v)
  {
    if v.rest != [] {
      assert v.rest == [v.rest[0]] + v.rest[1..];
    }
  }

  // ----- A whole scan -----------------------------------------------------------------------

  /** What calling until the end finds, and where it leaves the arguments. */
  function Scan(v: View, mode: Mode, optstr: string): (seq<Code>, View)
    requires Fits(v)
    decreases |v.rest|, if v.rest == [] then 0 else |v.rest[0]| - v.offset
  {
    var (w, c) := Call(v, mode, optstr);
    if c == End then ([], w)
    else
      Shrinks(v, mode, optstr);
      var (codes, u) := Scan(w, mode, optstr);
      ([c] + codes, u)
  }

  lemma {:induction false} Shrinks(v: View, mode: Mode, optstr: string)
    requires Fits(v) && Call(v, mode, optstr).1 != End
    ensures var w := Call(v, mode, optstr).0;
      |w.rest| < |v.rest| || (w.rest == v.rest && v.rest != [] && v.offset < w.offset < |v.rest[0]|)
    decreases |v.rest|
  {
    var w := SkipDashes(v);
    if mode == Permute && w.rest != [] && (w.dashdash || !IsOption(w.rest[0])) {
      Shrinks(Postpone(w), mode, optstr);
    }
  }

  /** By convention: an argument is an operand if it is not an option, or comes after a "--". */
  function Operands(args: seq<string>): seq<string> {
    if args == [] then []
    else if args[0] == "--" then args[1..]
    else if IsOption(args[0]) then Operands(args[1..])
    else [args[0]] + Operands(args[1..])
  }

  /** The options, and the "--" that ends them. */
  function Options(args: seq<string>): seq<string> {
    if args == [] then []
    else if args[0] == "--" then ["--"]
    else if IsOption(args[0]) then [args[0]] + Options(args[1..])
    else Options(args[1..])
  }

  /** The letters of one compound option: up to the first unknown one. */
  function Spelled(arg: string, offset: nat, optstr: string): seq<Code>
    requires offset <= |arg|
    decreases |arg| - offset
  {
    if offset == |arg| then []
    else if arg[offset] !in Letters(optstr) then [Unknown(arg[offset])]
    else [Known(arg[offset])] + Spelled(arg, offset + 1, optstr)
  }

  function Found(args: seq<string>, optstr: string): seq<Code> {
    if args == [] || args[0] == "--" then []
    else (if IsOption(args[0]) then Spelled(args[0], 1, optstr) else []) + Found(args[1..], optstr)
  }

  /** The arguments after the first "--". */
  function AfterDashes(args: seq<string>): seq<string> {
    if args == [] then [] else if args[0] == "--" then args[1..] else AfterDashes(args[1..])
  }

  /** What is left of arguments that follow a "--" once every further "--" the code looks at has been
      passed over. The one right after a "--" is not looked at. */
  function Swept(args: seq<string>): seq<string> {
    if args == [] then []
    else if args[0] == "--" then Unlooked(args[1..])
    else [args[0]] + Swept(args[1..])
  }

  function Unlooked(args: seq<string>): seq<string> {
    if args == [] then [] else [args[0]] + Swept(args[1..])
  }

  /** The operands the code collects. */
  function Collected(args: seq<string>): seq<string> {
    if args == [] then []
    else if args[0] == "--" then Unlooked(args[1..])
    else if IsOption(args[0]) then Collected(args[1..])
    else [args[0]] + Collected(args[1..])
  }

  lemma {:induction false} SweptIs(args: seq<string>)
    ensures |Swept(args)| <= |args| && |Unlooked(args)| <= |args|
    ensures |Swept(args)| == |args| ==> Swept(args) == args
    ensures |Swept(args)| == |args| <==> "--" !in args
    ensures Unlooked(args) == args <==> (args == [] || "--" !in args[1..])
  {
    if args != [] {
      SweptIs(args[1..]);
      assert args == [args[0]] + args[1..];
    }
  }

  lemma {:induction false} CollectedIs(args: seq<string>)
    ensures Collected(args) == Operands(args) <==> (AfterDashes(args) == [] || "--" !in AfterDashes(args)[1..])
  {
    if args != [] {
      if args[0] == "--" {
        SweptIs(args[1..]);
      } else {
        CollectedIs(args[1..]);
        if !IsOption(args[0]) {
          assert ([args[0]] + Collected(args[1..]))[1..] == Collected(args[1..]);
          assert ([args[0]] + Operands(args[1..]))[1..] == Operands(args[1..]);
        }
      }
    }
  }

  function Dashes(n: nat): seq<string> {
    seq(n, _ => "--")
  }

  /** An operand at the head is put off, and the call goes on. */
  lemma CallGoesOn(v: View, optstr: string)
    requires Fits(v)
    ensures var w := SkipDashes(v);
      w.rest != [] && (w.dashdash || !IsOption(w.rest[0])) ==>
        Fits(Postpone(w)) && Call(v, Permute, optstr) == Call(Postpone(w), Permute, optstr)
  {
  }

  lemma CallEnds(v: View, optstr: string)
    requires Fits(v)
    ensures SkipDashes(v).rest == [] ==> Call(v, Permute, optstr) == (SkipDashes(v), End)
  {
  }

  /** What is left after the argument at the head has been put off or passed over. */
  predicate Ended(v: View, w: View, passed: seq<string>, collected: seq<string>) {
    w.rest == [] && w.moved == v.moved + collected && w.done == v.done + passed
  }

  lemma EndedLater(v: View, w: View, passed: seq<string>, collected: seq<string>)
    requires v.rest != []
    ensures Ended(Postpone(v), w, passed, collected) ==> Ended(v, w, passed, [v.rest[0]] + collected)
    ensures forall d: bool :: Ended(Pass(v).(dashdash := d), w, passed, collected)
              ==> Ended(v, w, [v.rest[0]] + passed, collected)
  {
    assert v.moved + [v.rest[0]] + collected == v.moved + ([v.rest[0]] + collected);
    assert v.done + [v.rest[0]] + passed == v.done + ([v.rest[0]] + passed);
  }

  lemma DashesMore(n: nat)
    ensures ["--"] + Dashes(n) == Dashes(n + 1)
  {
  }

  /** After a "--" one call ends the scan. */
  lemma {:induction false} DashesEnd(v: View, optstr: string)
    requires Fits(v) && v.dashdash
    ensures |Swept(v.rest)| <= |v.rest|
    ensures var (w, c) := Call(v, Permute, optstr);
      c == End && Ended(v, w, Dashes(|v.rest| - |Swept(v.rest)|), Swept(v.rest))
    decreases |v.rest|, 1
  {
    hide Call, Ended;
    SweptIs(v.rest);
    if v.rest == [] {
      CallEnds(v, optstr);
      EndedNow(v);
    } else if v.rest[0] == "--" {
      DashesSkipped(v, optstr);
    } else {
      CallGoesOn(v, optstr);
      DashesEnd(Postpone(v), optstr);
      EndedLater(v, Call(v, Permute, optstr).0, Dashes(|v.rest[1..]| - |Swept(v.rest[1..])|), Swept(v.rest[1..]));
    }
  }

  lemma EndedNow(v: View)
    ensures v.rest == [] ==> Ended(v, v, Dashes(0), [])
  {
  }

  /** At a "--" one call ends the scan. */
  lemma {:induction false} DashesSkipped(v: View, optstr: string)
    requires Fits(v) && v.rest != [] && v.rest[0] == "--"
    ensures |Unlooked(v.rest[1..])| <= |v.rest[1..]|
    ensures var (w, c) := Call(v, Permute, optstr); var t := v.rest[1..];
      c == End && Ended(v, w, Dashes(|t| - |Unlooked(t)| + 1), Unlooked(t))
    decreases |v.rest|, 0
  {
    hide Call, Ended;
    var w, t := SkipDashes(v), v.rest[1..];
    SweptIs(t);
    if t == [] {
      CallEnds(v, optstr);
      EndedNow(w);
      EndedLater(v, w, Dashes(0), []);
    } else {
      CallGoesOn(v, optstr);
      DashesEnd(Postpone(w), optstr);
      var u := Call(v, Permute, optstr).0;
      SweptIs(t[1..]);
      EndedLater(w, u, Dashes(|t| - |Unlooked(t)|), Swept(t[1..]));
      EndedLater(v, u, Dashes(|t| - |Unlooked(t)|), Unlooked(t));
    }
    DashesMore(|t| - |Unlooked(t)|);
  }

  lemma {:induction false} CollectedAtMost(args: seq<string>)
    ensures |Collected(args)| <= |Operands(args)|
  {
    if args != [] {
      SweptIs(args[1..]);
      CollectedAtMost(args[1..]);
    }
  }

  /** The options, and every "--" that is passed over. */
  function Passed(args: seq<string>): seq<string> {
    CollectedAtMost(args);
    Options(args) + Dashes(|Operands(args)| - |Collected(args)|)
  }

  /** Where a scan that permutes ends, from any place in it before a "--". */
  lemma {:induction false} ScanIs(v: View, optstr: string)
    requires Fits(v) && !v.dashdash
    ensures var (codes, w) := Scan(v, Permute, optstr);
      && Ended(v, w, Passed(v.rest), Collected(v.rest))
      && codes == if v.offset > 1 then Spelled(v.rest[0], v.offset, optstr) + Found(v.rest[1..], optstr)
                  else Found(v.rest, optstr)
    decreases |v.rest|, if v.rest == [] then 0 else |v.rest[0]| - v.offset
  {
    hide Call, Ended, Dashes;
    if v.rest == [] {
      CallEnds(v, optstr);
      EndedNow(v);
      assert Passed([]) == Dashes(0);
    } else if v.rest[0] == "--" {
      DashesSkipped(v, optstr);
      var t := v.rest[1..];
      SweptIs(t);
      DashesMore(|t| - |Unlooked(t)|);
    } else if IsOption(v.rest[0]) {
      ScanLetter(v, optstr);
    } else {
      CallGoesOn(v, optstr);
      ScanIs(Postpone(v), optstr);
      ScanGoesOn(v, optstr);
      EndedLater(v, Scan(v, Permute, optstr).1, Passed(v.rest[1..]), Collected(v.rest[1..]));
    }
  }

  lemma ScanGoesOn(v: View, optstr: string)
    requires Fits(v) && v.rest != [] && !IsOption(v.rest[0]) && v.rest[0] != "--"
    ensures Fits(Postpone(v)) && Scan(v, Permute, optstr) == Scan(Postpone(v), Permute, optstr)
  {
    hide Call;
    CallGoesOn(v, optstr);
  }

  lemma {:induction false} ScanLetter(v: View, optstr: string)
    requires Fits(v) && !v.dashdash && v.rest != [] && IsOption(v.rest[0]) && v.rest[0] != "--"
    ensures var (codes, w) := Scan(v, Permute, optstr);
      && Ended(v, w, Passed(v.rest), Collected(v.rest))
      && codes == Spelled(v.rest[0], v.offset, optstr) + Found(v.rest[1..], optstr)
    decreases |v.rest|, |v.rest[0]| - v.offset, 0
  {
    hide Ended, Passed, Collected, Letters, Scan, ReadLetter, Spelled, Found;
    var (w, c) := ReadLetter(v, optstr);
    ScanOne(v, optstr);
    LetterIs(v, optstr);
    ScanIs(w, optstr);
    var u := Scan(v, Permute, optstr).1;
    if w.rest == v.rest {
      EndedSame(v, w, u, Passed(v.rest), Collected(v.rest));
      Regroup([c], Spelled(v.rest[0], w.offset, optstr), Found(v.rest[1..], optstr));
    } else {
      PassedOption(v.rest);
      EndedLater(v, u, Passed(v.rest[1..]), Collected(v.rest[1..]));
      assert Ended(Pass(v).(dashdash := false), u, Passed(v.rest[1..]), Collected(v.rest[1..]));
    }
  }

  lemma Regroup(a: seq<Code>, b: seq<Code>, c: seq<Code>)
    ensures a + b + c == a + (b + c)
  {
  }

  /** A call inside an option reads one letter. */
  lemma ScanOne(v: View, optstr: string)
    requires Fits(v) && !v.dashdash && v.rest != [] && IsOption(v.rest[0]) && v.rest[0] != "--"
    ensures var (w, c) := ReadLetter(v, optstr);
      && Fits(w) && (|w.rest| < |v.rest| || (w.rest == v.rest && v.offset < w.offset < |v.rest[0]|))
      && Scan(v, Permute, optstr) == ([c] + Scan(w, Permute, optstr).0, Scan(w, Permute, optstr).1)
  {
    hide Letters, Scan;
    assert Call(v, Permute, optstr) == ReadLetter(v, optstr);
    Shrinks(v, Permute, optstr);
    ScanMore(v, Permute, optstr);
  }

  lemma ScanMore(v: View, mode: Mode, optstr: string)
    requires Fits(v) && Call(v, mode, optstr).1 != End
    ensures var (w, c) := Call(v, mode, optstr);
      Scan(v, mode, optstr) == ([c] + Scan(w, mode, optstr).0, Scan(w, mode, optstr).1)
  {
    hide Call;
    Shrinks(v, mode, optstr);
  }

  /** The letter is the next one spelled: there are more, or the option is passed over. */
  lemma LetterIs(v: View, optstr: string)
    requires Fits(v) && !v.dashdash && v.rest != [] && IsOption(v.rest[0])
    ensures var (w, c) := ReadLetter(v, optstr);
      if w.rest == v.rest then
        && w == v.(offset := v.offset + 1) && w.offset > 1
        && Spelled(v.rest[0], v.offset, optstr) == [c] + Spelled(v.rest[0], w.offset, optstr)
      else w == Pass(v) && Spelled(v.rest[0], v.offset, optstr) == [c]
  {
    hide Letters;
    assert |Pass(v).rest| < |v.rest|;
    assert v.offset + 1 == |v.rest[0]| ==> Spelled(v.rest[0], v.offset + 1, optstr) == [];
  }

  lemma EndedSame(v: View, w: View, u: View, passed: seq<string>, collected: seq<string>)
    requires v.done == w.done && v.moved == w.moved
    ensures Ended(v, u, passed, collected) == Ended(w, u, passed, collected)
  {
  }

  lemma PassedOption(args: seq<string>)
    requires args != [] && IsOption(args[0]) && args[0] != "--"
    ensures Passed(args) == [args[0]] + Passed(args[1..]) && Collected(args) == Collected(args[1..])
  {
    hide Dashes;
    var n := |Operands(args[1..])| - |Collected(args[1..])|;
    CollectedAtMost(args[1..]);
    assert [args[0]] + Options(args[1..]) + Dashes(n) == [args[0]] + (Options(args[1..]) + Dashes(n));
  }

  lemma {:induction false} ScanPermutes(v: View, mode: Mode, optstr: string)
    requires Fits(v)
    ensures multiset(Args(Scan(v, mode, optstr).1)) == multiset(Args(v))
    decreases |v.rest|, if v.rest == [] then 0 else |v.rest[0]| - v.offset
  {
    hide Call, Args;
    CallPermutes(v, mode, optstr);
    var (w, c) := Call(v, mode, optstr);
    if c != End {
      Shrinks(v, mode, optstr);
      ScanPermutes(w, mode, optstr);
    }
  }

  /** Nothing after the first "--" but right behind it is a "--" again. */
  predicate OneDashes(args: seq<string>) {
    AfterDashes(args) == [] || "--" !in AfterDashes(args)[1..]
  }

  /** A whole scan that permutes: the letters of all options are found in order, the arguments are a
      permutation of what they were, with the operands in order at the end; and they are the operands
      of the convention exactly when no further "--" is among them. */
  lemma WholeScan(args: seq<string>, optstr: string)
    requires args != []
    ensures var (codes, w) := Scan(Start(args), Permute, optstr);
      && codes == Found(args[1..], optstr)
      && w.rest == [] && multiset(Args(w)) == multiset(args)
      && w.done == args[..1] + Passed(args[1..]) && w.moved == Collected(args[1..])
      && (w.moved == Operands(args[1..]) <==> OneDashes(args[1..]))
      && (OneDashes(args[1..]) ==> w.done == args[..1] + Options(args[1..]))
  {
    hide Scan, Args, Found, Options, Operands, Collected, AfterDashes;
    ScanIs(Start(args), optstr);
    ScanPermutes(Start(args), Permute, optstr);
    CollectedIs(args[1..]);
    CollectedAtMost(args[1..]);
  }

  /** An operand "--" is lost, and the options end one place later. */
  lemma LaterDashesLost(optstr: string)
    ensures var w := Scan(Start(["prog", "--", "a", "--"]), Permute, optstr).1;
      w.done == ["prog", "--", "--"] && w.moved == ["a"] && Operands(["--", "a", "--"]) == ["a", "--"]
  {
    hide Scan, Args, Collected, Operands, Options, Dashes;
    var args := ["prog", "--", "a", "--"];
    WholeScan(args, optstr);
    assert args[1..] == ["--", "a", "--"] && args[..1] == ["prog"];
    DashTail();
  }

  lemma DashTail()
    ensures Collected(["--", "a", "--"]) == ["a"] && Operands(["--", "a", "--"]) == ["a", "--"]
    ensures Options(["--", "a", "--"]) == ["--"] && Dashes(1) == ["--"]
  {
    var args := ["--", "a", "--"];
    assert args[1..] == ["a", "--"];
    assert ["a", "--"][1..] == ["--"];
    assert Swept(["--"]) == Unlooked([]);
  }

  /** The arguments from the first operand on, or after a "--". */
  function FromOperand(args: seq<string>): seq<string> {
    if args == [] then []
    else if args[0] == "--" then args[1..]
    else if IsOption(args[0]) then FromOperand(args[1..])
    else args
  }

  /** A scan in POSIX mode stops at the first operand and moves nothing. */
  lemma {:induction false} PosixScan(v: View, optstr: string)
    requires Fits(v) && !v.dashdash && v.moved == []
    ensures var w := Scan(v, Posix, optstr).1;
      w.rest == [] && w.moved == FromOperand(v.rest) && w.done + w.moved == v.done + v.rest
    decreases |v.rest|, if v.rest == [] then 0 else |v.rest[0]| - v.offset
  {
    hide Letters;
    var w := SkipDashes(v);
    if w.rest != [] && !w.dashdash && IsOption(w.rest[0]) {
      Shrinks(v, Posix, optstr);
      PosixScan(Call(v, Posix, optstr).0, optstr);
      assert v.done + [v.rest[0]] + v.rest[1..] == v.done + v.rest;
    } else if v.rest != [] {
      assert v.done + [v.rest[0]] + v.rest[1..] == v.done + v.rest;
      assert w.rest + [] == w.rest;
    }
  }

  /** A scan is a call and the scan from where it ends. */
  lemma ScanFrom(v: View, w: View, optstr: string)
    requires Fits(v) && Fits(w) && Same(w, Call(v, Permute, optstr).0)
    ensures var (u, c) := Call(v, Permute, optstr); var (codes, e) := Scan(v, Permute, optstr);
      if c == End then codes == [] && Same(w, e)
      else
        && codes == [c] + Scan(w, Permute, optstr).0 && Same(Scan(w, Permute, optstr).1, e)
        && Ahead(v, w)
  {
    var (u, c) := Call(v, Permute, optstr);
    if c != End {
      Shrinks(v, Permute, optstr);
      if w.rest == [] {
        CallEnds(u, optstr);
        CallEnds(w, optstr);
      }
    }
  }

  /** A scan that is to find `goal` has found some codes and then one more, and is now at v. */
  predicate ToGo(goal: (seq<Code>, View), codes: seq<Code>, code: Code, v: View, optstr: string)
    requires Fits(v)
  {
    if code == End then goal.0 == codes && Same(v, goal.1)
    else goal.0 == codes + [code] + Scan(v, Permute, optstr).0 && Same(Scan(v, Permute, optstr).1, goal.1)
  }

  lemma FirstFound(v: View, w: View, optstr: string)
    requires Fits(v) && Fits(w) && Same(w, Call(v, Permute, optstr).0)
    ensures ToGo(Scan(v, Permute, optstr), [], Call(v, Permute, optstr).1, w, optstr)
  {
    hide Call, Scan;
    ScanFrom(v, w, optstr);
    var c := Call(v, Permute, optstr).1;
    assert [] + [c] == [c];
  }

  lemma NextFound(goal: (seq<Code>, View), codes: seq<Code>, v: View, w: View, optstr: string)
    requires Fits(v) && Fits(w) && Same(w, Call(v, Permute, optstr).0)
    requires codes != [] && codes[|codes| - 1] != End
    requires ToGo(goal, codes[..|codes| - 1], codes[|codes| - 1], v, optstr)
    ensures ToGo(goal, codes, Call(v, Permute, optstr).1, w, optstr)
    ensures Call(v, Permute, optstr).1 != End ==> Ahead(v, w)
  {
    hide Call, Scan;
    ScanFrom(v, w, optstr);
    assert codes[..|codes| - 1] + [codes[|codes| - 1]] == codes;
    var c, rest := Call(v, Permute, optstr).1, Scan(w, Permute, optstr).0;
    assert codes + ([c] + rest) == codes + [c] + rest;
  }

  lemma AllFound(goal: (seq<Code>, View), codes: seq<Code>, v: View, optstr: string)
    requires Fits(v) && ToGo(goal, codes, End, v, optstr)
    ensures goal.0 == codes && v.done == goal.1.done && v.rest == goal.1.rest && v.moved == goal.1.moved
  {
  }

  /** w is farther on than v. */
  predicate Ahead(v: View, w: View) {
    |w.rest| < |v.rest| || (w.rest == v.rest && v.rest != [] && v.offset < w.offset < |v.rest[0]|)
  }

  const LAST_BYTE := 255 as char

  /** A letter that is found is one of the option string. So that -1 means the end of the scan, the last
      byte must not be a letter of it. */
  lemma MinusOne(v: View, mode: Mode, optstr: string)
    requires Fits(v)
    ensures var code := Call(v, mode, optstr).1;
      ValueOf(code) == -1 <==> code == End || code == Known(LAST_BYTE)
    ensures Call(v, mode, optstr).1.Known? ==> Call(v, mode, optstr).1.letter in Letters(optstr)
    decreases |v.rest|
  {
    var w := SkipDashes(v);
    if w.rest != [] && (w.dashdash || !IsOption(w.rest[0])) && mode == Permute {
      MinusOne(Postpone(w), mode, optstr);
    }
  }

  /** A known letter that callers take for the end of the scan. */
  lemma LastByteEnds()
    ensures var v := Start(["prog", ['-', LAST_BYTE], "-a"]);
      Call(v, Permute, [LAST_BYTE]).1 == Known(LAST_BYTE) && ValueOf(Known(LAST_BYTE)) == ValueOf(End)
  {
    var v := Start(["prog", ['-', LAST_BYTE], "-a"]);
    assert v.rest[0] == ['-', LAST_BYTE] != "--";
  }

  // ----- The scanner ------------------------------------------------------------------------

  /** The arguments when those before `index` have been passed and those from `border` on moved. */
  function ViewOf(args: seq<string>, index: nat, border: nat, offset: nat, dashdash: bool): View
    requires index <= |args| && border <= |args|
  {
    if index < border then View(args[..index], args[index..border], args[border..], offset, dashdash)
    else View(args[..border], [], args[border..], offset, dashdash)
  }

  /** The same, up to what does not matter once nothing is left to look at. */
  predicate Same(v: View, w: View) {
    v.done == w.done && v.rest == w.rest && v.moved == w.moved
      && (v.rest != [] ==> v.offset == w.offset && v.dashdash == w.dashdash)
  }

  lemma OptionIs(arg: string)
    ensures IsOption(arg) <==> !(arg == "" || arg[0] != '-' || arg == "-")
  {
  }

  /** What one look at the arguments comes to: the call is over, or goes on as if started here. */
  predicate Looked(v: View, mode: Mode, optstr: string, found: bool, w: View, code: Code)
    requires Fits(v) && Fits(w)
  {
    if found then Same(w, Call(v, mode, optstr).0) && code == Call(v, mode, optstr).1
    else Call(w, mode, optstr) == Call(v, mode, optstr) && |w.rest| < |v.rest|
  }

  lemma LookedThen(v: View, u: View, w: View, mode: Mode, optstr: string, found: bool, code: Code)
    requires Fits(v) && Fits(u) && Fits(w) && Call(u, mode, optstr) == Call(v, mode, optstr)
    requires Looked(u, mode, optstr, found, w, code)
    ensures if found then
        Looked(v, mode, optstr, found, w, code) && Same(w, Call(v, mode, optstr).0) && code == Call(v, mode, optstr).1
      else Call(w, mode, optstr) == Call(v, mode, optstr) && |w.rest| < |u.rest|
  {
    hide Call, Fits;
  }

  lemma NothingLooked(v: View, w: View, mode: Mode, optstr: string)
    requires Fits(v) && Fits(w) && Same(w, SkipDashes(v)) && w.rest == []
    ensures Looked(v, mode, optstr, true, w, End)
  {
  }

  lemma OptionLooked(v: View, w: View, mode: Mode, optstr: string)
    requires Fits(v) && Fits(w) && Same(w, SkipDashes(v)) && w.rest != [] && !w.dashdash && IsOption(w.rest[0])
    ensures var (u, code) := ReadLetter(w, optstr);
      && code != End && !code.Operand? && Fits(u) && u.moved == w.moved && u.dashdash == w.dashdash
      && Looked(v, mode, optstr, true, u, code)
  {
    assert w == SkipDashes(v);
  }

  lemma StringLooked(v: View, w: View, mode: Mode, optstr: string)
    requires Fits(v) && Fits(w) && Same(w, SkipDashes(v))
    requires w.rest != [] ==> w.dashdash || !IsOption(w.rest[0])
    ensures w.rest == [] ==> Looked(v, mode, optstr, true, w, End)
    ensures w.rest != [] && mode == InOrder ==> Looked(v, mode, optstr, true, Pass(w), Operand(w.rest[0]))
    ensures w.rest != [] && mode == Posix ==>
      Looked(v, mode, optstr, true, w.(rest := [], moved := w.rest + w.moved), End)
    ensures w.rest != [] && mode == Permute ==>
      Fits(Postpone(w)) && Looked(v, mode, optstr, false, Postpone(w), End)
  {
    if w.rest != [] {
      assert w == SkipDashes(v);
    }
  }

  lemma ViewGiveUp(args: seq<string>, index: nat, border: nat, offset: nat, dashdash: bool)
    requires index < border <= |args|
    ensures var v := ViewOf(args, index, border, offset, dashdash);
      ViewOf(args, index, index, offset, dashdash) == v.(rest := [], moved := v.rest + v.moved)
  {
    assert args[index..border] + args[border..] == args[index..];
  }

  lemma ViewArgs(args: seq<string>, index: nat, border: nat, offset: nat, dashdash: bool)
    requires index <= |args| && border <= |args|
    ensures var v := ViewOf(args, index, border, offset, dashdash);
      && Args(v) == args
      && (v.rest == [] ==> args == v.done + v.moved && args[|v.done|..] == v.moved)
  {
    if index < border {
      assert args[..index] + args[index..border] == args[..border];
    }
  }

  lemma StartIs(args: seq<string>)
    requires args != []
    ensures ViewOf(args, 1, |args|, 1, false) == Start(args)
  {
    assert args[1..|args|] == args[1..] && args[|args|..] == [];
  }

  lemma BorderIs(args: seq<string>, index: nat, border: nat, offset: nat, dashdash: bool)
    requires index <= |args| && border <= |args|
    ensures var v := ViewOf(args, index, border, offset, dashdash);
      && v.dashdash == dashdash && v.offset == offset && v.moved == args[border..]
      && (if index < border then v.rest != [] && v.rest[0] == args[index] && |v.done| == index
          else v.rest == [] && |v.done| == border)
  {
  }

  lemma ViewPass(args: seq<string>, index: nat, border: nat, offset: nat, dashdash: bool)
    requires index < border <= |args|
    ensures ViewOf(args, index + 1, border, 1, dashdash) == Pass(ViewOf(args, index, border, offset, dashdash))
    ensures ViewOf(args, index, border, offset, dashdash).rest[0] == args[index]
  {
    assert args[..index] + [args[index]] == args[..index + 1];
  }

  lemma ViewOffset(args: seq<string>, index: nat, border: nat, offset: nat, other: nat, dashdash: bool)
    requires index <= |args| && border <= |args|
    ensures ViewOf(args, index, border, other, dashdash) ==
      ViewOf(args, index, border, offset, dashdash).(offset := other)
  {
  }

  lemma ViewPostpone(args: seq<string>, index: nat, border: nat, offset: nat, dashdash: bool)
    requires index < border <= |args|
    ensures ViewOf(Cycled(args, index), index, border - 1, offset, dashdash)
      == Postpone(ViewOf(args, index, border, offset, dashdash))
  {
    var r := Cycled(args, index);
    assert r[..index] == args[..index];
    assert r[index..border - 1] == args[index..border][1..];
    assert r[border - 1..] == args[border..] + [args[index]];
  }

  /** The static and the global variables of the file. */
  class Scanner {
    var optarg: Option<string>
    var optind: nat
    var optopt: char
    var prevArgv: array?<string>
    var argvIndex: nat
    var optOffset: nat
    var dashdash: bool
    var nonopt: nat

    constructor ()
      ensures prevArgv == null
    {
      optarg, optind, optopt := None, 0, '?';
      prevArgv, argvIndex, optOffset, dashdash, nonopt := null, 0, 0, false, 0;
    }

    ghost predicate Valid(argv: array<string>)
      reads this, argv
    {
      && prevArgv == argv && 1 <= argvIndex <= argv.Length && nonopt < argv.Length
      && Fits(Now(argv))
    }

    /** The scan may go on in this mode: nothing has been moved, or only what a scan that permutes moves. */
    ghost predicate GoesOn(argv: array<string>, mode: Mode)
      requires argvIndex <= argv.Length && nonopt <= argv.Length
      reads this, argv
    {
      if mode == Permute then dashdash || forall a | a in Now(argv).moved :: !IsOption(a) else nonopt == 0
    }

    ghost function Now(argv: array<string>): View
      requires argvIndex <= argv.Length && nonopt <= argv.Length
      reads this, argv
    {
      ViewOf(argv[..], argvIndex, argv.Length - nonopt, optOffset, dashdash)
    }

    /** `increment_index`, when no option has taken an argument of its own. */
    method IncrementIndex()
      modifies `argvIndex, `optOffset
      ensures argvIndex == old(argvIndex) + 1 && optOffset == 1
    {
      argvIndex := argvIndex + 1;
      optOffset := 1;
    }

    /** `permute_argv_once`. */
    method PermuteArgvOnce(argv: array<string>) returns (stuck: bool)
      requires prevArgv == argv && argvIndex < argv.Length
      modifies `nonopt, argv
      ensures stuck <==> argvIndex + old(nonopt) >= argv.Length
      ensures stuck ==> nonopt == old(nonopt) && argv[..] == old(argv[..])
      ensures !stuck ==> nonopt == old(nonopt) + 1
      ensures !stuck ==> argv[..] == Cycled(old(argv[..]), argvIndex)
    {
      if argvIndex + nonopt >= argv.Length {
        return true;
      }
      MoveToEnd(argv, argvIndex);
      nonopt := nonopt + 1;
      return false;
    }

    /** The dash-dash check. */
    method CheckDashes(argv: array<string>, ghost mode: Mode)
      requires Valid(argv) && GoesOn(argv, mode)
      modifies `argvIndex, `optOffset, `dashdash
      ensures Valid(argv) && Same(Now(argv), SkipDashes(old(Now(argv))))
      ensures GoesOn(argv, mode)
    {
      if argvIndex < argv.Length && argv[argvIndex] == "--" {
        dashdash := true;
        IncrementIndex();
      }
    }

    /** The branch for an option. */
    method ReadOption(argv: array<string>, optstr: string) returns (c: int, ghost code: Code)
      requires Valid(argv) && argvIndex < argv.Length - nonopt && !dashdash && IsOption(Now(argv).rest[0])
      modifies `argvIndex, `optOffset, `optopt
      ensures Valid(argv) && Now(argv) == ReadLetter(old(Now(argv)), optstr).0
      ensures code == ReadLetter(old(Now(argv)), optstr).1 && c == ValueOf(code)
      ensures code.Unknown? ==> optopt == code.letter
      ensures argvIndex == |Now(argv).done|
    {
      hide ViewOf, Letters;
      BorderIs(argv[..], argvIndex, argv.Length - nonopt, optOffset, dashdash);
      ViewPass(argv[..], argvIndex, argv.Length - nonopt, optOffset, dashdash);
      ViewOffset(argv[..], argvIndex, argv.Length - nonopt, optOffset, optOffset + 1, dashdash);
      var letter := argv[argvIndex][optOffset];
      optOffset := optOffset + 1;
      c := Signed(256, letter as int);
      if letter !in Letters(optstr) {
        optopt := letter;
        c := '?' as int;
        IncrementIndex();
        code := Unknown(letter);
      } else {
        if optOffset == |argv[argvIndex]| {
          IncrementIndex();
        }
        code := Known(letter);
      }
    }

    /** A string we mildly do not want. */
    method PutOff(argv: array<string>) returns (stuck: bool)
      requires Valid(argv) && argvIndex < argv.Length && GoesOn(argv, Permute)
      requires Now(argv).rest != [] ==> dashdash || !IsOption(argv[argvIndex])
      modifies `nonopt, argv
      ensures Valid(argv) && GoesOn(argv, Permute) && (stuck <==> old(Now(argv)).rest == [])
      ensures stuck ==> Now(argv) == old(Now(argv))
      ensures !stuck ==> Now(argv) == Postpone(old(Now(argv)))
    {
      hide ViewOf, Cycled, IsOption;
      ghost var border := argv.Length - nonopt;
      BorderIs(argv[..], argvIndex, border, optOffset, dashdash);
      if argvIndex < border {
        ViewPostpone(argv[..], argvIndex, border, optOffset, dashdash);
      }
      stuck := PermuteArgvOnce(argv);
      BorderIs(argv[..], argvIndex, argv.Length - nonopt, optOffset, dashdash);
    }

    /** The branch for a string, in a state in which `v` is left. */
    method TakeString(argv: array<string>, mode: Mode, optstr: string, ghost v: View)
        returns (found: bool, c: int, ghost code: Code)
      requires Valid(argv) && argvIndex < argv.Length && Fits(v) && Same(Now(argv), SkipDashes(v))
      requires Now(argv).rest != [] ==> dashdash || !IsOption(argv[argvIndex])
      requires optarg == None && GoesOn(argv, mode)
      modifies `argvIndex, `optOffset, `optarg, `nonopt, argv
      ensures Valid(argv) && (mode == Permute ==> GoesOn(argv, mode))
      ensures (!found ==> optarg == None && mode == Permute) && !code.Unknown?
      ensures found ==> optarg == (if code.Operand? then Some(code.text) else None) && c == ValueOf(code)
      ensures found ==> if code == End then Now(argv).rest == [] else argvIndex == |Now(argv).done|
      ensures Looked(v, mode, optstr, found, Now(argv), code)
    {
      hide Call, Looked, SkipDashes, ViewOf;
      found, c, code := true, -1, End;
      ghost var border := argv.Length - nonopt;
      BorderIs(argv[..], argvIndex, border, optOffset, dashdash);
      StringLooked(v, Now(argv), mode, optstr);
      if argvIndex < border {
        ViewPass(argv[..], argvIndex, border, optOffset, dashdash);
        ViewGiveUp(argv[..], argvIndex, border, optOffset, dashdash);
      }
      if mode == InOrder {
        c, code := 1, Operand(argv[argvIndex]);
        optarg := Some(argv[argvIndex]);
        IncrementIndex();
        BorderIs(argv[..], argvIndex, border, optOffset, dashdash);
      } else if mode == Posix {
        nonopt := argv.Length - argvIndex;
        BorderIs(argv[..], argvIndex, argv.Length - nonopt, optOffset, dashdash);
      } else {
        found := PutOff(argv);
      }
    }

    /** What comes after `getopt_top`, up to the jump back there. */
    method Look(argv: array<string>, mode: Mode, optstr: string) returns (found: bool, c: int, ghost code: Code)
      requires Valid(argv) && optarg == None && GoesOn(argv, mode)
      modifies `argvIndex, `optOffset, `dashdash, `optopt, `optarg, `nonopt, argv
      ensures Valid(argv) && (mode == Permute ==> GoesOn(argv, mode))
      ensures !found ==> optarg == None && mode == Permute
      ensures found ==> optarg == (if code.Operand? then Some(code.text) else None) && c == ValueOf(code)
      ensures found && code.Unknown? ==> optopt == code.letter
      ensures found ==> if code == End then Now(argv).rest == [] else argvIndex == |Now(argv).done|
      ensures Looked(old(Now(argv)), mode, optstr, found, Now(argv), code)
    {
      hide Call, Looked, SkipDashes, ViewOf, ReadLetter;
      ghost var v := Now(argv);
      CheckDashes(argv, mode);
      ghost var border := argv.Length - nonopt;
      BorderIs(argv[..], argvIndex, border, optOffset, dashdash);
      if argvIndex < border {
        ViewPass(argv[..], argvIndex, border, optOffset, dashdash);
      } else if argvIndex < argv.Length {
        assert Now(argv).moved[argvIndex - border] == argv[argvIndex];
      }
      if argvIndex == argv.Length {
        found, c, code := true, -1, End;
        NothingLooked(v, Now(argv), mode, optstr);
      } else if dashdash || argv[argvIndex] == "" || argv[argvIndex][0] != '-' || argv[argvIndex] == "-" {
        found, c, code := TakeString(argv, mode, optstr, v);
      } else {
        OptionIs(argv[argvIndex]);
        OptionLooked(v, Now(argv), mode, optstr);
        found := true;
        c, code := ReadOption(argv, optstr);
      }
    }

    /** Where a call with these arguments starts. */
    ghost function Entry(argv: array<string>): View
      requires argv.Length >= 1 && (prevArgv == argv ==> Valid(argv))
      reads this, argv
    {
      if prevArgv == argv then Now(argv) else Start(argv[..])
    }

    /** The loop of `getopt`, until it has found something. */
    method FindNext(argv: array<string>, mode: Mode, optstr: string) returns (c: int, ghost code: Code)
      requires Valid(argv) && GoesOn(argv, mode)
      modifies `argvIndex, `optOffset, `dashdash, `optopt, `optarg, `nonopt, argv
      ensures Valid(argv) && (mode == Permute ==> GoesOn(argv, mode))
      ensures Same(Now(argv), Call(old(Now(argv)), mode, optstr).0)
      ensures code == Call(old(Now(argv)), mode, optstr).1 && c == ValueOf(code)
      ensures optarg == (if code.Operand? then Some(code.text) else None)
      ensures code.Unknown? ==> optopt == code.letter
      ensures if code == End then Now(argv).rest == [] else argvIndex == |Now(argv).done|
    {
      hide Call, ReadLetter, SkipDashes, ViewOf, Fits, Letters, IsOption, Looked, ValueOf;
      ghost var v := Now(argv);
      optarg := None;
      var found := false;
      c, code := -1, End;
      while !found
        invariant Valid(argv) && (!found ==> optarg == None) && (mode == Permute || !found ==> GoesOn(argv, mode))
        invariant !found ==> Call(Now(argv), mode, optstr) == Call(v, mode, optstr)
        invariant found ==> Looked(v, mode, optstr, found, Now(argv), code)
        invariant found ==> c == ValueOf(code) && optarg == (if code.Operand? then Some(code.text) else None)
        invariant found && code.Unknown? ==> optopt == code.letter
        invariant found ==> if code == End then Now(argv).rest == [] else argvIndex == |Now(argv).done|
        decreases !found, |Now(argv).rest|
      {
        ghost var u := Now(argv);
        found, c, code := Look(argv, mode, optstr);
        LookedThen(v, u, Now(argv), mode, optstr, found, code);
      }
      LookedThen(v, v, Now(argv), mode, optstr, true, code);
    }

    /** `getopt`. A scan keeps to one mode, and in POSIX mode ends at the first -1. */
    method Getopt(argv: array<string>, optstr: string, posixlyCorrect: bool) returns (c: int, ghost code: Code)
      requires argv.Length >= 1 && ':' !in optstr && (prevArgv == argv ==> Valid(argv))
      requires prevArgv == argv ==> GoesOn(argv, ModeOf(optstr, posixlyCorrect))
      modifies this, argv
      ensures ModeOf(optstr, posixlyCorrect) == Permute ==> Valid(argv) && GoesOn(argv, Permute)
      ensures Valid(argv) && Same(Now(argv), Call(old(Entry(argv)), ModeOf(optstr, posixlyCorrect), optstr).0)
      ensures code == Call(old(Entry(argv)), ModeOf(optstr, posixlyCorrect), optstr).1 && c == ValueOf(code)
      ensures code.Operand? ==> optarg == Some(code.text)
      ensures !code.Operand? ==> optarg == None
      ensures code.Unknown? ==> optopt == code.letter
      ensures optind == if c == -1 then argv.Length - nonopt else argvIndex
      ensures c == -1 <==> code == End || code == Known(LAST_BYTE)
      ensures code.Known? ==> code.letter in Letters(optstr)
      ensures code != Known(LAST_BYTE) ==> optind == |Now(argv).done|
    {
      hide Call, ReadLetter, SkipDashes, ViewOf, Fits, Letters, IsOption;
      var mode := ModeOf(optstr, posixlyCorrect);
      if prevArgv != argv {
        prevArgv := argv;
        argvIndex, optOffset, dashdash, nonopt := 1, 1, false, 0;
        StartIs(argv[..]);
      }
      ghost var v := Now(argv);
      c, code := FindNext(argv, mode, optstr);
      MinusOne(v, mode, optstr);
      optind := if c == -1 then argv.Length - nonopt else argvIndex;
      BorderIs(argv[..], argvIndex, argv.Length - nonopt, optOffset, dashdash);
    }

    /** The loop every caller writes around `getopt`: until it returns -1. */
    method AllOptions(argv: array<string>, optstr: string) returns (values: seq<int>, ghost codes: seq<Code>)
      requires argv.Length >= 1 && ':' !in optstr && prevArgv != argv && ModeOf(optstr, false) == Permute
      requires LAST_BYTE !in Letters(optstr)
      modifies this, argv
      ensures codes == Found(old(argv[1..]), optstr) && |values| == |codes|
      ensures forall i | 0 <= i < |codes| :: values[i] == ValueOf(codes[i])
      ensures argv[..] == old(argv[..1]) + Passed(old(argv[1..])) + Collected(old(argv[1..]))
      ensures optind <= argv.Length && argv[optind..] == Collected(old(argv[1..]))
    {
      hide Call, Found, Passed, Collected, Operands, AfterDashes, Scan, ViewOf, ToGo, Same, Fits, Letters, GoesOn;
      ghost var args := argv[..];
      assert args[1..] == argv[1..] && args[..1] == argv[..1];
      ghost var goal := Scan(Start(args), Permute, optstr);
      WholeScan(args, optstr);
      var c;
      ghost var code;
      values, codes := [], [];
      c, code := Getopt(argv, optstr, false);
      FirstFound(Start(args), Now(argv), optstr);
      while c != -1
        invariant Valid(argv) && GoesOn(argv, Permute) && c == ValueOf(code) && |values| == |codes|
        invariant forall i | 0 <= i < |codes| :: values[i] == ValueOf(codes[i])
        invariant ToGo(goal, codes, code, Now(argv), optstr)
        invariant optind == |Now(argv).done| && (c == -1 <==> code == End)
        decreases code != End, |Now(argv).rest|,
          if Now(argv).rest == [] then 0 else |Now(argv).rest[0]| - Now(argv).offset
      {
        values, codes := values + [c], codes + [code];
        ghost var v := Now(argv);
        c, code := Getopt(argv, optstr, false);
        NextFound(goal, codes, v, Now(argv), optstr);
      }
      AllFound(goal, codes, Now(argv), optstr);
      ViewArgs(argv[..], argvIndex, argv.Length - nonopt, optOffset, dashdash);
    }
  }

  function Cycled<T>(q: seq<T>, at: nat): seq<T>
    requires at < |q|
  {
    q[..at] + q[at + 1..] + [q[at]]
  }

  /** `memmove` of what is behind one element onto it, and the element behind it all. */
  method MoveToEnd<T>(a: array<T>, at: nat)
    requires at < a.Length
    modifies a
    ensures a[..] == Cycled(old(a[..]), at)
  {
    var tmp := a[at];
    var i := at;
    while i + 1 < a.Length
      invariant at <= i < a.Length
      invariant forall j | 0 <= j < a.Length :: a[j] == if at <= j < i then old(a[j + 1]) else old(a[j])
    {
      a[i] := a[i + 1];
      i := i + 1;
    }
    a[a.Length - 1] := tmp;
    CycledIs(old(a[..]), at, a[..]);
  }

  lemma CycledIs<T>(was: seq<T>, at: nat, now: seq<T>)
    requires at < |was| == |now| && now[|now| - 1] == was[at]
    requires (forall j | 0 <= j < at :: now[j] == was[j]) && forall j | at <= j < |was| - 1 :: now[j] == was[j + 1]
    ensures now == Cycled(was, at)
  {
    var c := Cycled(was, at);
    assert |c| == |was|;
    forall j | 0 <= j < |was| ensures now[j] == c[j] {
      if j < at {
        assert c[j] == was[..at][j] == was[j];
      } else if j < |was| - 1 {
        assert c[j] == was[at + 1..][j - at] == was[j + 1];
      } else {
        assert c[j] == [was[at]][0];
      }
    }
  }
}
