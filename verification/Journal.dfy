/**
  The decorator automaton of the log formatter (`parse_decorators` in src/Core/Journal.cc). It splits
  a format string into text fragments and decorators such as %fg<gr,hl>.
 */
module Journal {
  import opened Options
  import opened Slices

  datatype Token = Fragment(text: string) | Decorator(specifier: string, args: seq<string>)

  /** The token being read; views are kept as the index where they start. */
  datatype Current =
    | Nothing
    | FragmentFrom(start: nat)
    | SpecifierFrom(start: nat)
    | DecoratorWith(specifier: string, args: seq<string>)
    | ArgumentFrom(specifier: string, args: seq<string>, start: nat)

  /** The numbered states of the source. */
  datatype Mode = Plain | Specifier | Arguments | Argument | Accepted | Escaped

  datatype Machine = Machine(mode: Mode, current: Current, tokens: seq<Token>)

  /** A step goes on, with the index stepped back or not, rejects the pattern, or cuts a view to a negative length. */
  datatype Step = Go(m: Machine, back: bool) | Reject | CutOutside

  predicate IsIdent(ch: char)
  {
    '0' <= ch <= '9' || 'a' <= ch <= 'z' || 'A' <= ch <= 'Z' || ch == '_'
  }

  /** The character at `i`; the string is followed by a NUL. */
  function CharAt(s: string, i: nat): char
    requires i <= |s|
  {
    if i == |s| then '\0' else s[i]
  }

  predicate InRange(c: Current, i: nat)
  {
    match c
    case FragmentFrom(start) => start <= i
    case SpecifierFrom(start) => start <= i
    case ArgumentFrom(_, _, start) => start <= i
    case _ => true
  }

  /** The fragment that ends before `i`, if one is open. */
  function Flushed(s: string, i: nat, m: Machine): seq<Token>
    requires i <= |s| && InRange(m.current, i)
  {
    if m.current.FragmentFrom? then m.tokens + [Fragment(s[m.current.start..i])] else m.tokens
  }

  /** One round of the loop. */
  function StepAt(s: string, i: nat, m: Machine): (r: Step)
    requires i <= |s| && InRange(m.current, i)
    ensures r.Go? ==> InRange(r.m.current, if r.back then i else i + 1)
    ensures r.Go? && r.back ==> m.mode == Specifier && r.m.mode == Plain
  {
    var ch := CharAt(s, i);
    match m.mode
    case Plain =>
      if ch == '%' then Go(Machine(Specifier, Nothing, Flushed(s, i, m)), false)
      else if ch == '\0' then Go(Machine(Accepted, Nothing, Flushed(s, i, m)), false)
      else if ch == '\\' then Go(Machine(Escaped, Nothing, Flushed(s, i, m)), false)
      else if m.current.FragmentFrom? then Go(m, false)
      else Go(m.(current := FragmentFrom(i)), false)
    case Specifier =>
      if IsIdent(ch) then
        if m.current.SpecifierFrom? then Go(m, false) else Go(m.(current := SpecifierFrom(i)), false)
      else if !m.current.SpecifierFrom? then Reject
      else
        var specifier := s[m.current.start..i];
        if ch == '<' then Go(m.(mode := Arguments, current := DecoratorWith(specifier, [])), false)
        else
          var tokens := m.tokens + [Decorator(specifier, [])];
          if ch == '\0' then Go(Machine(Accepted, Nothing, tokens), false)
          else Go(Machine(Plain, Nothing, tokens), true)
    case Arguments =>
      if !m.current.DecoratorWith? then Reject
      else if ch == ' ' || ch == '\t' then Go(m, false)
      else if ch == '>' then Go(Machine(Plain, Nothing, m.tokens + [Decorator(m.current.specifier, m.current.args)]), false)
      else if IsIdent(ch) then Go(m.(mode := Argument, current := ArgumentFrom(m.current.specifier, m.current.args, i)), false)
      else Reject
    case Argument =>
      if !m.current.ArgumentFrom? then Reject
      else if ch == ',' || ch == '>' then
        var args := m.current.args + [s[m.current.start..i]];
        if ch == ',' then Go(m.(mode := Arguments, current := DecoratorWith(m.current.specifier, args)), false)
        else Go(Machine(Plain, Nothing, m.tokens + [Decorator(m.current.specifier, args)]), false)
      else if IsIdent(ch) then Go(m, false)
      else Reject
    case Accepted => Go(m, false)
    case Escaped =>
      if i == |s| then CutOutside else Go(Machine(Plain, Nothing, m.tokens + [Fragment([s[i]])]), false)
  }

  datatype Outcome = Parsed(tokens: seq<Token>) | Rejected | CutsOutside

  /** The step back never loops: the next round reads the same character in another state. */
  ghost function Fuel(s: string, i: nat, m: Machine): int
  {
    2 * (|s| + 1 - i) + if m.mode == Specifier then 1 else 0
  }

  function Run(s: string, i: nat, m: Machine): Outcome
    requires i <= |s| + 1 && InRange(m.current, i)
    decreases Fuel(s, i, m)
  {
    if i == |s| + 1 then Parsed(m.tokens)
    else
      match StepAt(s, i, m)
      case Reject => Rejected
      case CutOutside => CutsOutside
      case Go(m', back) => Run(s, if back then i else i + 1, m')
  }

  const START := Machine(Plain, Nothing, [])

  /** The loop of the source, which steps its index back at the end of a bare decorator. */
  method ParseDecorators(origin: string) returns (r: Outcome)
    ensures r == Run(origin, 0, START)
  {
    var m := START;
    var i: int := 0;
    while i < |origin| + 1
      invariant 0 <= i <= |origin| + 1 && InRange(m.current, i)
      invariant Run(origin, i, m) == Run(origin, 0, START)
      decreases Fuel(origin, i, m)
    {
      var step := StepAt(origin, i, m);
      if step.Reject? { return Rejected; }
      if step.CutOutside? { return CutsOutside; }
      if step.back { i := i - 1; }
      m := step.m;
      i := i + 1;
    }
    return Parsed(m.tokens);
  }

  // ---------- a backslash at the end ----------

  /** The machine when the index first gets to `n`; None if the pattern is rejected before. */
  function Until(s: string, i: nat, n: nat, m: Machine): (r: Option<Machine>)
    requires i <= n <= |s| && InRange(m.current, i)
    ensures r.Some? ==> InRange(r.value.current, n)
    decreases 2 * (n - i) + if m.mode == Specifier then 1 else 0
  {
    if i == n then Some(m)
    else
      match StepAt(s, i, m)
      case Go(m', back) => Until(s, if back then i else i + 1, n, m')
      case _ => None
  }

  lemma {:induction false} RunFrom(s: string, i: nat, n: nat, m: Machine)
    requires i <= n <= |s| && InRange(m.current, i)
    ensures Run(s, i, m) == match Until(s, i, n, m) case None => Rejected case Some(m') => Run(s, n, m')
    decreases 2 * (n - i) + if m.mode == Specifier then 1 else 0
  {
    if i < n {
      var step := StepAt(s, i, m);
      if step.Go? { RunFrom(s, if step.back then i else i + 1, n, step.m); }
    }
  }

  lemma {:induction false} UntilOn(s: string, i: nat, n: nat, k: nat, m: Machine)
    requires i <= n <= k <= |s| && InRange(m.current, i)
    ensures Until(s, i, k, m) == match Until(s, i, n, m) case None => None case Some(m') => Until(s, n, k, m')
    decreases 2 * (n - i) + if m.mode == Specifier then 1 else 0
  {
    if i < n {
      var step := StepAt(s, i, m);
      if step.Go? { UntilOn(s, if step.back then i else i + 1, n, k, step.m); }
    }
  }

  /** What comes later does not matter. */
  lemma {:induction false} UntilOfPrefix(s: string, i: nat, n: nat, m: Machine)
    requires i <= n <= |s| && InRange(m.current, i)
    ensures Until(s[..n], i, n, m) == Until(s, i, n, m)
    decreases 2 * (n - i) + if m.mode == Specifier then 1 else 0
  {
    if i < n {
      SameStep(s, i, n, m);
      var step := StepAt(s, i, m);
      if step.Go? { UntilOfPrefix(s, if step.back then i else i + 1, n, step.m); }
    }
  }

  lemma SameStep(s: string, i: nat, n: nat, m: Machine)
    requires i < n <= |s| && InRange(m.current, i)
    ensures StepAt(s[..n], i, m) == StepAt(s, i, m)
  {
    assert forall start :: 0 <= start <= i ==> s[..n][start..i] == s[start..i];
  }

  /** The pattern may end here. */
  predicate IsComplete(m: Machine) { m.mode in {Plain, Accepted} || (m.mode == Specifier && m.current.SpecifierFrom?) }

  lemma EndOfRun(s: string, m: Machine)
    requires InRange(m.current, |s|)
    ensures Run(s, |s|, m).Parsed? <==> IsComplete(m)
    ensures Run(s, |s|, m).CutsOutside? <==> m.mode == Escaped
  {
    var step := StepAt(s, |s|, m);
    assert !(step.Go? && step.back);
  }

  lemma PrefixParses(s: string, n: nat)
    requires n <= |s|
    ensures Run(s[..n], 0, START).Parsed? <==> Until(s, 0, n, START).Some? && IsComplete(Until(s, 0, n, START).value)
  {
    UntilOfPrefix(s, 0, n, START);
    RunFrom(s[..n], 0, n, START);
    if Until(s, 0, n, START).Some? { EndOfRun(s[..n], Until(s, 0, n, START).value); }
  }

  /** A NUL inside the string, before which the pattern is complete: the automaton accepts there and ignores the rest. */
  ghost predicate EndsEarly(s: string)
  {
    exists k :: 0 <= k < |s| && s[k] == '\0' && Run(s[..k], 0, START).Parsed?
  }

  /** One character later. */
  lemma ModeAfter(s: string, n: nat, m: Machine)
    requires n < |s| && InRange(m.current, n) && Until(s, n, n + 1, m).Some?
    ensures var mode := Until(s, n, n + 1, m).value.mode;
      && (mode == Accepted <==> m.mode == Accepted || (s[n] == '\0' && IsComplete(m)))
      && (mode == Escaped <==> s[n] == '\\' && IsComplete(m) && m.mode != Accepted)
  {
    var step := StepAt(s, n, m);
    assert step.Go? && step.back ==> Until(s, n, n + 1, m) == Until(s, n, n + 1, step.m);
    if step.back {
      assert Until(s, n, n + 1, step.m) == Until(s, n + 1, n + 1, StepAt(s, n, step.m).m);
    } else {
      assert Until(s, n, n + 1, m) == Until(s, n + 1, n + 1, step.m);
    }
  }

  lemma {:induction false} AcceptedIff(s: string, n: nat)
    requires n <= |s| && Until(s, 0, n, START).Some?
    ensures Until(s, 0, n, START).value.mode == Accepted <==> EndsEarly(s[..n])
  {
    if n == 0 {
      assert s[..0] == [];
    } else {
      hide Run, Until, StepAt, IsComplete;
      UntilOn(s, 0, n - 1, n, START);
      var m := Until(s, 0, n - 1, START).value;
      ModeAfter(s, n - 1, m);
      AcceptedIff(s, n - 1);
      PrefixParses(s, n - 1);
      forall k | 0 <= k < n ensures s[..n][..k] == s[..k] {}
      forall k | 0 <= k < n - 1 ensures s[..n - 1][..k] == s[..k] {}
      assert EndsEarly(s[..n]) <==> EndsEarly(s[..n - 1]) || (s[n - 1] == '\0' && Run(s[..n - 1], 0, START).Parsed?) by {
        if s[n - 1] == '\0' && Run(s[..n - 1], 0, START).Parsed? { assert s[..n][n - 1] == '\0'; }
        if EndsEarly(s[..n - 1]) {
          var k :| 0 <= k < n - 1 && s[..n - 1][k] == '\0' && Run(s[..n - 1][..k], 0, START).Parsed?;
          assert s[..n][k] == '\0';
        }
      }
    }
  }

  /**
    A view is cut to a negative length exactly by a backslash after a pattern that is complete
    without it and was not accepted before at a NUL inside.
   */
  lemma CutsOutsideIff(s: string)
    ensures Run(s, 0, START).CutsOutside? <==>
      && s != [] && s[|s| - 1] == '\\'
      && Run(s[..|s| - 1], 0, START).Parsed? && !EndsEarly(s[..|s| - 1])
  {
    if s == [] {
      EndOfRun(s, START);
    } else {
      hide Run, Until, StepAt, IsComplete, EndsEarly;
      var n := |s| - 1;
      RunFrom(s, 0, |s|, START);
      UntilOn(s, 0, n, |s|, START);
      PrefixParses(s, n);
      if Until(s, 0, n, START).Some? {
        AcceptedIff(s, n);
        LastCharacter(s, Until(s, 0, n, START).value);
      }
    }
  }

  lemma LastCharacter(s: string, m: Machine)
    requires s != [] && InRange(m.current, |s| - 1)
    ensures var last := Until(s, |s| - 1, |s|, m);
      last.Some? && Run(s, |s|, last.value).CutsOutside? <==> s[|s| - 1] == '\\' && IsComplete(m) && m.mode != Accepted
  {
    if s[|s| - 1] == '\\' && IsComplete(m) && m.mode != Accepted { BackslashIsRead(s, m); }
    var last := Until(s, |s| - 1, |s|, m);
    if last.Some? {
      ModeAfter(s, |s| - 1, m);
      EndOfRun(s, last.value);
    }
  }

  lemma BackslashIsRead(s: string, m: Machine)
    requires s != [] && InRange(m.current, |s| - 1) && s[|s| - 1] == '\\' && IsComplete(m) && m.mode != Accepted
    ensures Until(s, |s| - 1, |s|, m).Some?
  {
    var step := StepAt(s, |s| - 1, m);
    if step.back {
      assert Until(s, |s| - 1, |s|, step.m) == Until(s, |s|, |s|, StepAt(s, |s| - 1, step.m).m);
    } else {
      assert Until(s, |s| - 1, |s|, m) == Until(s, |s|, |s|, step.m);
    }
  }

  // ---------- printing ----------

  /** An argument with the blanks before it. */
  datatype Arg = Arg(blanks: string, word: string)

  /** How a decorator ends: without brackets, with `>` after its last argument, or after blanks where one could stand. */
  datatype Close = Bare | AfterArgument | AfterBlanks(blanks: string)

  /** A character of text, with or without a backslash before it, or a decorator. */
  datatype Atom = Text(ch: char, escaped: bool) | Deco(specifier: string, args: seq<Arg>, close: Close)

  predicate IsBlank(b: string) { forall k :: 0 <= k < |b| ==> b[k] == ' ' || b[k] == '\t' }

  predicate IsWord(w: string) { w != [] && forall k :: 0 <= k < |w| ==> IsIdent(w[k]) }

  /** What stands between the brackets, with the closing one. */
  function PrintArgs(args: seq<Arg>, close: Close): string
  {
    if args == [] then (if close.AfterBlanks? then close.blanks else "") + ">"
    else if |args| == 1 && close.AfterArgument? then args[0].blanks + args[0].word + ">"
    else args[0].blanks + args[0].word + "," + PrintArgs(args[1..], close)
  }

  function PrintAtom(a: Atom): string
  {
    match a
    case Text(ch, escaped) => if escaped then ['\\', ch] else [ch]
    case Deco(specifier, args, close) => "%" + specifier + if close.Bare? then "" else "<" + PrintArgs(args, close)
  }

  function Print(atoms: seq<Atom>): string
  {
    if atoms == [] then "" else PrintAtom(atoms[0]) + Print(atoms[1..])
  }

  /** What a bare decorator must not be followed by. */
  predicate Continues(atoms: seq<Atom>)
  {
    atoms != [] && atoms[0].Text? && !atoms[0].escaped && (IsIdent(atoms[0].ch) || atoms[0].ch == '<')
  }

  /** Text that is special is escaped, decorators are well-formed, and a bare one ends where it should. */
  ghost predicate Printable(atoms: seq<Atom>)
  {
    forall k :: 0 <= k < |atoms| ==> PrintableAt(atoms, k)
  }

  ghost predicate PrintableAt(atoms: seq<Atom>, k: nat)
    requires k < |atoms|
  {
    && IsAtom(atoms[k])
    && (atoms[k].Deco? && atoms[k].close.Bare? ==> !Continues(atoms[k + 1..]))
  }

  ghost predicate IsAtom(a: Atom)
  {
    match a
    case Text(ch, escaped) => escaped || ch !in {'%', '\\', '\0'}
    case Deco(specifier, args, close) => IsWord(specifier) && AreArgs(args, close) && (close.Bare? ==> args == [])
  }

  /** Names and arguments are words, and only blanks stand before arguments or instead of one. */
  ghost predicate AreArgs(args: seq<Arg>, close: Close)
  {
    && (forall j :: 0 <= j < |args| ==> IsBlank(args[j].blanks) && IsWord(args[j].word))
    && (close.AfterArgument? ==> args != []) && (close.AfterBlanks? ==> IsBlank(close.blanks))
  }

  function Words(args: seq<Arg>): (r: seq<string>)
    ensures |r| == |args|
  {
    if args == [] then [] else [args[0].word] + Words(args[1..])
  }

  /** What tokens say: their text, character by character, and their decorators. */
  datatype Meaning = Char(ch: char) | Mark(specifier: string, args: seq<string>)

  function Chars(s: string): (r: seq<Meaning>)
    ensures |r| == |s| && forall k :: 0 <= k < |s| ==> r[k] == Char(s[k])
  {
    seq(|s|, k requires 0 <= k < |s| => Char(s[k]))
  }

  function MeaningOfToken(t: Token): seq<Meaning>
  {
    match t
    case Fragment(text) => Chars(text)
    case Decorator(specifier, args) => [Mark(specifier, args)]
  }

  function MeaningOfTokens(ts: seq<Token>): seq<Meaning>
  {
    if ts == [] then [] else MeaningOfTokens(ts[..|ts| - 1]) + MeaningOfToken(ts[|ts| - 1])
  }

  function MeaningOfAtoms(atoms: seq<Atom>): seq<Meaning>
  {
    if atoms == [] then [] else [MeaningOfAtom(atoms[0])] + MeaningOfAtoms(atoms[1..])
  }

  function MeaningOfAtom(a: Atom): Meaning
  {
    match a case Text(ch, _) => Char(ch) case Deco(specifier, args, _) => Mark(specifier, Words(args))
  }

  // ---------- parsing what was printed ----------

  /** `text` is what is left of the string from `i` on, up to its end or to a NUL in it. */
  ghost predicate Ends(s: string, i: nat, text: string)
  {
    At(s, i, text) && CharAt(s, i + |text|) == '\0'
  }

  lemma {:induction false} AcceptedStays(s: string, i: nat, m: Machine)
    requires i <= |s| + 1 && m.mode == Accepted && InRange(m.current, i)
    ensures Run(s, i, m) == Parsed(m.tokens)
    decreases |s| + 1 - i
  {
    if i <= |s| { AcceptedStays(s, i + 1, m); }
  }

  /** The specifier is read to its end. */
  lemma {:induction false} RunsThroughName(s: string, start: nat, i: nat, end: nat, tokens: seq<Token>)
    requires start < i <= end <= |s| && forall k :: start <= k < end ==> IsIdent(s[k])
    ensures Run(s, i, Machine(Specifier, SpecifierFrom(start), tokens)) == Run(s, end, Machine(Specifier, SpecifierFrom(start), tokens))
    decreases end - i
  {
    if i < end { RunsThroughName(s, start, i + 1, end, tokens); }
  }

  lemma RunsThroughSpecifier(s: string, i: nat, name: string, m: Machine)
    requires m.mode == Plain && InRange(m.current, i) && IsWord(name) && At(s, i, "%" + name)
    ensures var end := i + 1 + |name|;
      Run(s, i, m) == Run(s, end, Machine(Specifier, SpecifierFrom(i + 1), Flushed(s, i, m))) && s[i + 1..end] == name
  {
    AtSplit(s, i, "%", name);
    AtIndex(s, i, "%", 0);
    var end := i + 1 + |name|;
    forall k | i + 1 <= k < end ensures IsIdent(s[k]) { AtIndex(s, i + 1, name, k - i - 1); }
    var reading := Machine(Specifier, Nothing, Flushed(s, i, m));
    assert Run(s, i, m) == Run(s, i + 1, reading);
    assert Run(s, i + 1, reading) == Run(s, i + 2, reading.(current := SpecifierFrom(i + 1)));
    hide Run;
    RunsThroughName(s, i + 1, i + 2, end, Flushed(s, i, m));
  }

  lemma {:induction false} RunsThroughArgument(s: string, start: nat, i: nat, end: nat, specifier: string, args: seq<string>, tokens: seq<Token>)
    requires start < i <= end <= |s| && forall k :: start <= k < end ==> IsIdent(s[k])
    ensures Run(s, i, Machine(Argument, ArgumentFrom(specifier, args, start), tokens))
      == Run(s, end, Machine(Argument, ArgumentFrom(specifier, args, start), tokens))
    decreases end - i
  {
    if i < end { RunsThroughArgument(s, start, i + 1, end, specifier, args, tokens); }
  }

  /** One argument up to the separator after it. */
  lemma RunsToSeparator(s: string, i: nat, arg: string, specifier: string, done: seq<string>, tokens: seq<Token>)
    requires IsWord(arg) && At(s, i, arg)
    ensures var end := i + |arg|;
      && end <= |s| && s[i..end] == arg
      && Run(s, i, Machine(Arguments, DecoratorWith(specifier, done), tokens))
        == Run(s, end, Machine(Argument, ArgumentFrom(specifier, done, i), tokens))
  {
    var end := i + |arg|;
    forall k | i <= k < end ensures IsIdent(s[k]) { AtIndex(s, i, arg, k - i); }
    RunsThroughArgument(s, i, i + 1, end, specifier, done, tokens);
  }

  /** One argument and the character after it. */
  lemma RunsPastSeparator(s: string, i: nat, arg: string, sep: char, specifier: string, done: seq<string>, tokens: seq<Token>)
    requires IsWord(arg) && At(s, i, arg + [sep]) && (sep == ',' || sep == '>')
    ensures Run(s, i, Machine(Arguments, DecoratorWith(specifier, done), tokens)) == Run(s, i + |arg| + 1,
      if sep == ',' then Machine(Arguments, DecoratorWith(specifier, done + [arg]), tokens)
      else Machine(Plain, Nothing, tokens + [Decorator(specifier, done + [arg])]))
  {
    AtSplit(s, i, arg, [sep]);
    RunsToSeparator(s, i, arg, specifier, done, tokens);
    AtIndex(s, i + |arg|, [sep], 0);
  }

  lemma {:induction false} RunsThroughBlanks(s: string, i: nat, blanks: string, m: Machine)
    requires m.mode == Arguments && m.current.DecoratorWith? && IsBlank(blanks) && At(s, i, blanks)
    ensures i + |blanks| <= |s| && Run(s, i, m) == Run(s, i + |blanks|, m)
    decreases |blanks|
  {
    if blanks != [] {
      AtIndex(s, i, blanks, 0);
      assert [blanks[0]] + blanks[1..] == blanks;
      AtSplit(s, i, [blanks[0]], blanks[1..]);
      assert Run(s, i, m) == Run(s, i + 1, m);
      RunsThroughBlanks(s, i + 1, blanks[1..], m);
    }
  }

  /** One argument with the blanks before it and the character after it. */
  lemma RunsPastArgument(s: string, i: nat, arg: Arg, sep: char, specifier: string, done: seq<string>, tokens: seq<Token>)
    requires IsBlank(arg.blanks) && IsWord(arg.word) && (sep == ',' || sep == '>')
    requires At(s, i, arg.blanks + arg.word + [sep])
    ensures Run(s, i, Machine(Arguments, DecoratorWith(specifier, done), tokens)) == Run(s, i + |arg.blanks| + |arg.word| + 1,
      if sep == ',' then Machine(Arguments, DecoratorWith(specifier, done + [arg.word]), tokens)
      else Machine(Plain, Nothing, tokens + [Decorator(specifier, done + [arg.word])]))
  {
    hide Run, IsBlank, IsWord, At;
    assert arg.blanks + arg.word + [sep] == arg.blanks + (arg.word + [sep]);
    AtSplit(s, i, arg.blanks, arg.word + [sep]);
    RunsThroughBlanks(s, i, arg.blanks, Machine(Arguments, DecoratorWith(specifier, done), tokens));
    RunsPastSeparator(s, i + |arg.blanks|, arg.word, sep, specifier, done, tokens);
  }

  lemma RunsToClose(s: string, i: nat, blanks: string, specifier: string, done: seq<string>, tokens: seq<Token>)
    requires IsBlank(blanks) && At(s, i, blanks + ">")
    ensures Run(s, i, Machine(Arguments, DecoratorWith(specifier, done), tokens))
      == Run(s, i + |blanks| + 1, Machine(Plain, Nothing, tokens + [Decorator(specifier, done)]))
  {
    AtSplit(s, i, blanks, ">");
    RunsThroughBlanks(s, i, blanks, Machine(Arguments, DecoratorWith(specifier, done), tokens));
    AtIndex(s, i + |blanks|, ">", 0);
  }

  lemma {:induction false} RunsThroughArgs(s: string, i: nat, specifier: string, done: seq<string>, args: seq<Arg>, close: Close, tokens: seq<Token>)
    requires AreArgs(args, close) && !close.Bare? && At(s, i, PrintArgs(args, close))
    ensures Run(s, i, Machine(Arguments, DecoratorWith(specifier, done), tokens))
      == Run(s, i + |PrintArgs(args, close)|, Machine(Plain, Nothing, tokens + [Decorator(specifier, done + Words(args))]))
    decreases |args|
  {
    hide At, IsWord, IsBlank, Run;
    if args == [] {
      RunsToClose(s, i, close.blanks, specifier, done, tokens);
      assert done + [] == done;
    } else {
      var arg := args[0];
      if |args| == 1 && close.AfterArgument? {
        RunsPastArgument(s, i, arg, '>', specifier, done, tokens);
        assert args[1..] == [] && Words(args) == [arg.word];
      } else {
        AtSplit(s, i, arg.blanks + arg.word + ",", PrintArgs(args[1..], close));
        RunsPastArgument(s, i, arg, ',', specifier, done, tokens);
        RunsThroughArgs(s, i + |arg.blanks| + |arg.word| + 1, specifier, done + [arg.word], args[1..], close, tokens);
        assert done + [arg.word] + Words(args[1..]) == done + Words(args);
      }
    }
  }

  /** What has been read in plain mode, the open fragment included. */
  function SoFar(s: string, i: nat, m: Machine): seq<Meaning>
    requires i <= |s| && InRange(m.current, i)
  {
    MeaningOfTokens(Flushed(s, i, m))
  }

  lemma FlushedAppend(ts: seq<Token>, t: Token)
    ensures MeaningOfTokens(ts + [t]) == MeaningOfTokens(ts) + MeaningOfToken(t)
  {
    assert (ts + [t])[..|ts|] == ts;
  }

  /** In plain mode only a fragment can be open. */
  predicate IsPlain(m: Machine) { m.mode == Plain && (m.current.Nothing? || m.current.FragmentFrom?) }

  /** The machine has gone on to `m'` at `end`, having read one more thing; or the text has ended there. */
  ghost predicate HasRead(s: string, i: nat, m: Machine, end: nat, m': Machine, what: Meaning, last: bool)
    requires i <= |s| && InRange(m.current, i)
  {
    && end <= |s| && IsPlain(m') && InRange(m'.current, end) && SoFar(s, end, m') == SoFar(s, i, m) + [what]
    && (Run(s, i, m) == Run(s, end, m') || (last && Run(s, i, m) == Parsed(m'.tokens) && m'.current == Nothing))
  }

  lemma PlainChar(s: string, i: nat, m: Machine) returns (m': Machine)
    requires i < |s| && IsPlain(m) && InRange(m.current, i) && s[i] !in {'%', '\\', '\0'}
    ensures IsPlain(m') && InRange(m'.current, i + 1) && Run(s, i, m) == Run(s, i + 1, m')
    ensures SoFar(s, i + 1, m') == SoFar(s, i, m) + [Char(s[i])]
  {
    m' := if m.current.FragmentFrom? then m else m.(current := FragmentFrom(i));
    var start := m'.current.start;
    assert Run(s, i, m) == Run(s, i + 1, m');
    hide Run, MeaningOfTokens;
    FragmentGrows(s, start, i, m.tokens);
    FlushedAppend(m.tokens, Fragment(s[start..i]));
    if m.current.Nothing? { assert MeaningOfTokens(m.tokens) + [] == MeaningOfTokens(m.tokens); }
  }

  lemma FragmentGrows(s: string, start: nat, i: nat, tokens: seq<Token>)
    requires start <= i < |s|
    ensures MeaningOfTokens(tokens + [Fragment(s[start..i + 1])]) == MeaningOfTokens(tokens) + Chars(s[start..i]) + [Char(s[i])]
  {
    hide MeaningOfTokens;
    FlushedAppend(tokens, Fragment(s[start..i + 1]));
    CharsGrow(MeaningOfTokens(tokens), s, start, i);
  }

  lemma CharsGrow(before: seq<Meaning>, s: string, start: nat, i: nat)
    requires start <= i < |s|
    ensures before + Chars(s[start..i + 1]) == before + Chars(s[start..i]) + [Char(s[i])]
  {
  }

  lemma EscapedChar(s: string, i: nat, m: Machine) returns (m': Machine)
    requires i + 1 < |s| && IsPlain(m) && InRange(m.current, i) && s[i] == '\\'
    ensures IsPlain(m') && InRange(m'.current, i + 2) && Run(s, i, m) == Run(s, i + 2, m')
    ensures SoFar(s, i + 2, m') == SoFar(s, i, m) + [Char(s[i + 1])]
  {
    var tokens := Flushed(s, i, m);
    m' := Machine(Plain, Nothing, tokens + [Fragment([s[i + 1]])]);
    assert Run(s, i, m) == Run(s, i + 1, Machine(Escaped, Nothing, tokens));
    assert Run(s, i + 1, Machine(Escaped, Nothing, tokens)) == Run(s, i + 2, m');
    FlushedAppend(tokens, Fragment([s[i + 1]]));
  }

  /** From the opening bracket to the closing one. */
  lemma RunsThroughBrackets(s: string, i: nat, open: nat, a: Atom, tokens: seq<Token>)
    requires a.Deco? && !a.close.Bare? && AreArgs(a.args, a.close)
    requires i < open && At(s, open, "<" + PrintArgs(a.args, a.close)) && s[i..open] == a.specifier
    ensures Run(s, open, Machine(Specifier, SpecifierFrom(i), tokens))
      == Run(s, open + 1 + |PrintArgs(a.args, a.close)|, Machine(Plain, Nothing, tokens + [Decorator(a.specifier, Words(a.args))]))
  {
    AtSplit(s, open, "<", PrintArgs(a.args, a.close));
    AtIndex(s, open, "<", 0);
    assert Run(s, open, Machine(Specifier, SpecifierFrom(i), tokens))
      == Run(s, open + 1, Machine(Arguments, DecoratorWith(a.specifier, []), tokens));
    RunsThroughArgs(s, open + 1, a.specifier, [], a.args, a.close, tokens);
    assert [] + Words(a.args) == Words(a.args);
  }

  lemma BracketedDecorator(s: string, i: nat, a: Atom, m: Machine) returns (m': Machine)
    requires a.Deco? && !a.close.Bare? && IsAtom(a)
    requires IsPlain(m) && InRange(m.current, i) && At(s, i, PrintAtom(a))
    ensures HasRead(s, i, m, i + |PrintAtom(a)|, m', Mark(a.specifier, Words(a.args)), false)
  {
    hide Run, HasRead, Flushed, IsWord, IsAtom, At, PrintAtom, PrintArgs, AreArgs, Words;
    DecoratorParts(a);
    AtBracketed(s, i, a);
    RunsThroughSpecifier(s, i, a.specifier, m);
    var tokens, end := Flushed(s, i, m), i + |PrintAtom(a)|;
    RunsThroughBrackets(s, i + 1, i + 1 + |a.specifier|, a, tokens);
    m' := Machine(Plain, Nothing, tokens + [Decorator(a.specifier, Words(a.args))]);
    DecoratorRead(s, i, m, end, m', a.specifier, Words(a.args), false);
  }

  lemma DecoratorParts(a: Atom)
    requires a.Deco? && IsAtom(a)
    ensures IsWord(a.specifier) && a.specifier != [] && AreArgs(a.args, a.close)
  {
  }

  lemma AtBracketed(s: string, i: nat, a: Atom)
    requires a.Deco? && !a.close.Bare? && At(s, i, PrintAtom(a))
    ensures |PrintAtom(a)| == 2 + |a.specifier| + |PrintArgs(a.args, a.close)| && i + |PrintAtom(a)| <= |s|
    ensures At(s, i, "%" + a.specifier) && At(s, i + 1 + |a.specifier|, "<" + PrintArgs(a.args, a.close))
  {
    hide PrintArgs;
    AtSplit(s, i, "%" + a.specifier, "<" + PrintArgs(a.args, a.close));
  }

  lemma PrintedStart(atoms: seq<Atom>)
    requires atoms != [] && Printable(atoms) && !Continues(atoms)
    ensures Print(atoms) != [] && !IsIdent(Print(atoms)[0]) && Print(atoms)[0] != '<' && Print(atoms)[0] != '\0'
  {
    assert PrintableAt(atoms, 0);
  }

  /** A bare decorator ends at a character that is read again in plain mode, or at the end. */
  lemma BareDecorator(s: string, i: nat, name: string, m: Machine, rest: seq<Atom>) returns (m': Machine)
    requires IsWord(name) && IsPlain(m) && InRange(m.current, i) && At(s, i, "%" + name)
    requires Ends(s, i + 1 + |name|, Print(rest)) && Printable(rest) && !Continues(rest)
    ensures HasRead(s, i, m, i + 1 + |name|, m', Mark(name, []), rest == [])
  {
    assert name != [];
    hide Run, Print, Printable, Continues, Ends, IsWord, HasRead, Flushed;
    var end, tokens := i + 1 + |name|, Flushed(s, i, m);
    assert end <= |s|;
    hide At;
    m' := Machine(Plain, Nothing, tokens + [Decorator(name, [])]);
    RunsThroughSpecifier(s, i, name, m);
    BareEnd(s, i + 1, end, tokens, rest);
    DecoratorRead(s, i, m, end, m', name, [], rest == []);
  }

  lemma DecoratorRead(s: string, i: nat, m: Machine, end: nat, m': Machine, specifier: string, args: seq<string>, last: bool)
    requires i <= end <= |s| && InRange(m.current, i)
    requires m' == Machine(Plain, Nothing, Flushed(s, i, m) + [Decorator(specifier, args)])
    requires Run(s, i, m) == Run(s, end, m') || (last && Run(s, i, m) == Parsed(m'.tokens))
    ensures HasRead(s, i, m, end, m', Mark(specifier, args), last)
  {
    hide Run, MeaningOfTokens;
    FlushedAppend(Flushed(s, i, m), Decorator(specifier, args));
  }

  lemma BareEnd(s: string, start: nat, end: nat, tokens: seq<Token>, rest: seq<Atom>)
    requires start < end && Ends(s, end, Print(rest)) && Printable(rest) && !Continues(rest)
    ensures var (reading, done) := (Machine(Specifier, SpecifierFrom(start), tokens), tokens + [Decorator(s[start..end], [])]);
      Run(s, end, reading) == if rest == [] then Parsed(done) else Run(s, end, Machine(Plain, Nothing, done))
  {
    var reading, done := Machine(Specifier, SpecifierFrom(start), tokens), tokens + [Decorator(s[start..end], [])];
    if rest == [] {
      assert Run(s, end, reading) == Run(s, end + 1, Machine(Accepted, Nothing, done));
      AcceptedStays(s, end + 1, Machine(Accepted, Nothing, done));
    } else {
      PrintedStart(rest);
      AtIndex(s, end, Print(rest), 0);
      hide Print, Printable, Continues;
      assert StepAt(s, end, reading) == Go(Machine(Plain, Nothing, done), true);
    }
  }

  lemma PrintableParts(atoms: seq<Atom>)
    requires atoms != [] && Printable(atoms)
    ensures PrintableAt(atoms, 0) && Printable(atoms[1..])
  {
    assert PrintableAt(atoms, 0);
    forall k | 0 <= k < |atoms| - 1 ensures PrintableAt(atoms[1..], k) {
      assert PrintableAt(atoms, k + 1);
      assert atoms[1..][k + 1..] == atoms[k + 2..];
    }
  }

  lemma EndsSplit(s: string, i: nat, a: string, b: string)
    requires Ends(s, i, a + b)
    ensures At(s, i, a) && Ends(s, i + |a|, b)
  {
    AtSplit(s, i, a, b);
  }

  lemma PrintedSplit(s: string, i: nat, atoms: seq<Atom>)
    requires atoms != [] && Ends(s, i, Print(atoms))
    ensures At(s, i, PrintAtom(atoms[0])) && Ends(s, i + |PrintAtom(atoms[0])|, Print(atoms[1..]))
  {
    hide At, Ends, PrintAtom;
    EndsSplit(s, i, PrintAtom(atoms[0]), Print(atoms[1..]));
  }

  /** One printed character of text. */
  lemma PrintedText(s: string, i: nat, a: Atom, m: Machine) returns (m': Machine)
    requires a.Text? && IsAtom(a) && IsPlain(m) && InRange(m.current, i) && At(s, i, PrintAtom(a))
    ensures HasRead(s, i, m, i + |PrintAtom(a)|, m', Char(a.ch), false)
  {
    hide Run, SoFar;
    var part := PrintAtom(a);
    AtIndex(s, i, part, 0);
    if a.escaped {
      AtIndex(s, i, part, 1);
      m' := EscapedChar(s, i, m);
    } else {
      m' := PlainChar(s, i, m);
    }
  }

  /** Only a bare decorator at the very end is not followed by another round in plain mode. */
  predicate EndsBare(atoms: seq<Atom>) { |atoms| == 1 && atoms[0].Deco? && atoms[0].close.Bare? }

  lemma PrintedDecorator(s: string, i: nat, m: Machine, a: Atom, rest: seq<Atom>) returns (m': Machine)
    requires IsPlain(m) && InRange(m.current, i) && a.Deco? && At(s, i, PrintAtom(a))
    requires IsAtom(a) && (a.close.Bare? ==> !Continues(rest))
    requires Printable(rest) && Ends(s, i + |PrintAtom(a)|, Print(rest))
    ensures i <= |s| && HasRead(s, i, m, i + |PrintAtom(a)|, m', Mark(a.specifier, Words(a.args)), a.close.Bare? && rest == [])
  {
    hide Printable, Print, Continues, IsWord, Ends, PrintArgs, Run, SoFar, AreArgs;
    assert i <= |s|;
    hide At;
    if a.close.Bare? {
      assert PrintAtom(a) == "%" + a.specifier + "" == "%" + a.specifier;
      m' := BareDecorator(s, i, a.specifier, m, rest);
    } else {
      m' := BracketedDecorator(s, i, a, m);
    }
  }

  /** One printed atom, unless it is a bare decorator at the very end. */
  lemma PrintedAtom(s: string, i: nat, m: Machine, atoms: seq<Atom>) returns (m': Machine)
    requires i <= |s| && IsPlain(m) && InRange(m.current, i)
    requires atoms != [] && Printable(atoms) && Ends(s, i, Print(atoms))
    ensures HasRead(s, i, m, i + |PrintAtom(atoms[0])|, m', MeaningOfAtom(atoms[0]), EndsBare(atoms))
  {
    hide Printable, Print, PrintAtom, Continues, IsWord, IsAtom, Ends, At, PrintArgs, Run, SoFar, Flushed;
    PrintableParts(atoms);
    PrintedSplit(s, i, atoms);
    match atoms[0]
    case Text(_, _) => m' := PrintedText(s, i, atoms[0], m);
    case Deco(_, _, _) => m' := PrintedDecorator(s, i, m, atoms[0], atoms[1..]);
  }

  lemma MeaningUnfolds(before: seq<Meaning>, atoms: seq<Atom>)
    requires atoms != []
    ensures before + [MeaningOfAtom(atoms[0])] + MeaningOfAtoms(atoms[1..]) == before + MeaningOfAtoms(atoms)
  {
  }

  lemma {:induction false} RunPrinted(s: string, i: nat, m: Machine, atoms: seq<Atom>)
    requires i <= |s| && IsPlain(m) && InRange(m.current, i)
    requires Printable(atoms) && Ends(s, i, Print(atoms))
    ensures Run(s, i, m).Parsed? && MeaningOfTokens(Run(s, i, m).tokens) == SoFar(s, i, m) + MeaningOfAtoms(atoms)
    decreases |atoms|
  {
    if atoms == [] {
      RunToEnd(s, i, m);
      assert SoFar(s, i, m) + [] == SoFar(s, i, m);
    } else {
      RunPrintedOn(s, i, m, atoms);
    }
  }

  lemma LastIsBare(s: string, end: nat, m: Machine, atoms: seq<Atom>)
    requires EndsBare(atoms) && m.current == Nothing && end <= |s|
    ensures MeaningOfTokens(m.tokens) == SoFar(s, end, m) + MeaningOfAtoms(atoms[1..])
  {
    assert MeaningOfAtoms(atoms[1..]) == [];
    assert MeaningOfTokens(m.tokens) + [] == MeaningOfTokens(m.tokens);
  }

  lemma {:induction false} RunPrintedOn(s: string, i: nat, m: Machine, atoms: seq<Atom>)
    requires i <= |s| && IsPlain(m) && InRange(m.current, i)
    requires atoms != [] && Printable(atoms) && Ends(s, i, Print(atoms))
    ensures Run(s, i, m).Parsed? && MeaningOfTokens(Run(s, i, m).tokens) == SoFar(s, i, m) + MeaningOfAtoms(atoms)
    decreases |atoms|, 0
  {
    hide Run, Printable, Print, PrintAtom, MeaningOfAtom, MeaningOfAtoms, MeaningOfTokens, At, Ends, Flushed;
    var rest, end := atoms[1..], i + |PrintAtom(atoms[0])|;
    MeaningUnfolds(SoFar(s, i, m), atoms);
    var next := PrintedAtom(s, i, m, atoms);
    PrintedSplit(s, i, atoms);
    PrintableParts(atoms);
    if Run(s, i, m) == Run(s, end, next) {
      RunPrinted(s, end, next, rest);
    } else {
      LastIsBare(s, end, next, atoms);
    }
  }

  lemma RunToEnd(s: string, i: nat, m: Machine)
    requires Ends(s, i, "") && IsPlain(m) && InRange(m.current, i)
    ensures Run(s, i, m) == Parsed(Flushed(s, i, m))
  {
    var accepted := Machine(Accepted, Nothing, Flushed(s, i, m));
    assert Run(s, i, m) == Run(s, i + 1, accepted);
    AcceptedStays(s, i + 1, accepted);
  }

  /**
    Parsing undoes printing, up to the end or to a NUL: the same decorators with the same arguments
    in the same places, and the same text between them.
   */
  lemma ParsePrinted(s: string, atoms: seq<Atom>)
    requires Printable(atoms) && Ends(s, 0, Print(atoms))
    ensures var r := Run(s, 0, START);
      r.Parsed? && MeaningOfTokens(r.tokens) == MeaningOfAtoms(atoms)
  {
    RunPrinted(s, 0, START, atoms);
    assert [] + MeaningOfAtoms(atoms) == MeaningOfAtoms(atoms);
  }

  // ---------- only what can be printed is parsed ----------

  lemma AtJoin(s: string, i: nat, a: string, b: string)
    requires At(s, i, a) && At(s, i + |a|, b)
    ensures At(s, i, a + b)
  {
    assert s[i..i + |a + b|] == s[i..i + |a|] + s[i + |a|..i + |a| + |b|];
  }

  lemma AtSlice(s: string, i: nat, end: nat)
    requires i <= end <= |s|
    ensures At(s, i, s[i..end]) && |s[i..end]| == end - i
  {
  }

  /** Where the run of identifier characters ends. */
  function WordEnd(s: string, i: nat): (end: nat)
    requires i <= |s|
    ensures i <= end <= |s| && (forall k :: i <= k < end ==> IsIdent(s[k])) && !IsIdent(CharAt(s, end))
    decreases |s| - i
  {
    if IsIdent(CharAt(s, i)) then WordEnd(s, i + 1) else i
  }

  function BlankEnd(s: string, i: nat): (end: nat)
    requires i <= |s|
    ensures i <= end <= |s| && IsBlank(s[i..end]) && CharAt(s, end) != ' ' && CharAt(s, end) != '\t'
    decreases |s| - i
  {
    if i < |s| && (s[i] == ' ' || s[i] == '\t') then
      assert s[i..BlankEnd(s, i + 1)] == [s[i]] + s[i + 1..BlankEnd(s, i + 1)];
      BlankEnd(s, i + 1)
    else i
  }

  lemma WordAt(s: string, i: nat) returns (word: string)
    requires i <= |s| && IsIdent(CharAt(s, i))
    ensures IsWord(word) && At(s, i, word) && i + |word| <= |s| && !IsIdent(CharAt(s, i + |word|))
  {
    var end := WordEnd(s, i);
    word := s[i..end];
    AtSlice(s, i, end);
  }

  /** What the parser accepts between brackets is a list of arguments. */
  lemma {:induction false} AcceptedArgs(s: string, i: nat, specifier: string, done: seq<string>, tokens: seq<Token>)
      returns (args: seq<Arg>, close: Close)
    requires i <= |s|
    requires Run(s, i, Machine(Arguments, DecoratorWith(specifier, done), tokens)).Parsed?
    ensures AreArgs(args, close) && !close.Bare? && At(s, i, PrintArgs(args, close))
    decreases |s| - i
  {
    var reading := Machine(Arguments, DecoratorWith(specifier, done), tokens);
    InBrackets(s, i, reading);
    var end := BlankEnd(s, i);
    var blanks := s[i..end];
    AtSlice(s, i, end);
    RunsThroughBlanks(s, i, blanks, reading);
    InBrackets(s, end, reading);
    if CharAt(s, end) == '>' {
      args, close := [], AfterBlanks(blanks);
      AtSlice(s, end, end + 1);
      assert s[end..end + 1] == ">";
      AtJoin(s, i, blanks, ">");
    } else {
      ArgumentStarts(s, end, reading);
      var word := WordAt(s, end);
      var sep := end + |word|;
      RunsToSeparator(s, end, word, specifier, done, tokens);
      var ch := ArgumentEnds(s, end, sep, specifier, done, tokens);
      AtJoin(s, i, blanks, word);
      AtJoin(s, i, blanks + word, [ch]);
      if ch == '>' {
        args, close := [Arg(blanks, word)], AfterArgument;
      } else {
        RunsPastArgument(s, i, Arg(blanks, word), ',', specifier, done, tokens);
        var rest;
        rest, close := AcceptedArgs(s, sep + 1, specifier, done + [word], tokens);
        args := [Arg(blanks, word)] + rest;
        AtJoin(s, i, blanks + word + ",", PrintArgs(rest, close));
        ArgsCons(Arg(blanks, word), rest, close);
      }
    }
  }

  lemma ArgsCons(arg: Arg, rest: seq<Arg>, close: Close)
    requires AreArgs(rest, close) && !close.Bare? && IsBlank(arg.blanks) && IsWord(arg.word)
    ensures AreArgs([arg] + rest, close) && PrintArgs([arg] + rest, close) == arg.blanks + arg.word + "," + PrintArgs(rest, close)
  {
    assert ([arg] + rest)[1..] == rest;
  }

  /** The brackets do not end with the string. */
  lemma InBrackets(s: string, i: nat, m: Machine)
    requires i <= |s| && m.mode == Arguments && m.current.DecoratorWith? && Run(s, i, m).Parsed?
    ensures CharAt(s, i) != '\0'
  {
  }

  lemma ArgumentStarts(s: string, i: nat, m: Machine)
    requires i <= |s| && m.mode == Arguments && m.current.DecoratorWith? && Run(s, i, m).Parsed?
    requires CharAt(s, i) !in {' ', '\t', '>'}
    ensures IsIdent(CharAt(s, i))
  {
  }

  lemma ArgumentEnds(s: string, start: nat, sep: nat, specifier: string, done: seq<string>, tokens: seq<Token>) returns (ch: char)
    requires start <= sep <= |s| && !IsIdent(CharAt(s, sep))
    requires Run(s, sep, Machine(Argument, ArgumentFrom(specifier, done, start), tokens)).Parsed?
    ensures sep < |s| && At(s, sep, [ch]) && (ch == ',' || ch == '>')
  {
    ch := CharAt(s, sep);
  }

  /** The decorator `a` stands at `i`, and what comes after it is parsed, or nothing comes. */
  ghost predicate IsRead(s: string, i: nat, a: Atom, m': Machine)
  {
    var end := i + |PrintAtom(a)|;
    && a.Deco? && IsAtom(a) && At(s, i, PrintAtom(a)) && i < end <= |s|
    && (a.close.Bare? ==> !IsIdent(CharAt(s, end)) && CharAt(s, end) != '<')
    && (CharAt(s, end) == '\0' || (IsPlain(m') && InRange(m'.current, end) && Run(s, end, m').Parsed?))
  }

  lemma BracketsPrinted(s: string, i: nat, open: nat, a: Atom)
    requires a.Deco? && !a.close.Bare? && open == i + 1 + |a.specifier| < |s| && s[open] == '<'
    requires At(s, i, "%" + a.specifier) && At(s, open + 1, PrintArgs(a.args, a.close))
    ensures At(s, i, PrintAtom(a)) && i + |PrintAtom(a)| == open + 1 + |PrintArgs(a.args, a.close)| <= |s|
  {
    hide PrintArgs;
    AtSlice(s, open, open + 1);
    assert s[open..open + 1] == "<";
    AtJoin(s, open, "<", PrintArgs(a.args, a.close));
    AtJoin(s, i, "%" + a.specifier, "<" + PrintArgs(a.args, a.close));
  }

  lemma AcceptedBrackets(s: string, i: nat, name: string, tokens: seq<Token>) returns (a: Atom, m': Machine)
    requires IsWord(name) && At(s, i, "%" + name) && i + 1 + |name| < |s| && s[i + 1 + |name|] == '<' && s[i + 1..i + 1 + |name|] == name
    requires Run(s, i + 1 + |name|, Machine(Specifier, SpecifierFrom(i + 1), tokens)).Parsed?
    ensures IsRead(s, i, a, m')
  {
    hide Run, IsWord, PrintArgs, PrintAtom, AreArgs, Words, At, CharAt, IsIdent;
    var open := i + 1 + |name|;
    OpensBrackets(s, i + 1, open, tokens);
    var args, close := AcceptedArgs(s, open + 1, name, [], tokens);
    a := Deco(name, args, close);
    RunsThroughArgs(s, open + 1, name, [], args, close, tokens);
    m' := Machine(Plain, Nothing, tokens + [Decorator(name, [] + Words(args))]);
    BracketsPrinted(s, i, open, a);
  }

  lemma OpensBrackets(s: string, start: nat, open: nat, tokens: seq<Token>)
    requires start <= open < |s| && s[open] == '<'
    ensures Run(s, open, Machine(Specifier, SpecifierFrom(start), tokens))
      == Run(s, open + 1, Machine(Arguments, DecoratorWith(s[start..open], []), tokens))
  {
  }

  lemma AcceptedBare(s: string, i: nat, name: string, tokens: seq<Token>) returns (a: Atom, m': Machine)
    requires IsWord(name) && At(s, i, "%" + name) && i + 1 + |name| <= |s|
    requires var ch := CharAt(s, i + 1 + |name|); !IsIdent(ch) && ch != '<'
    requires Run(s, i + 1 + |name|, Machine(Specifier, SpecifierFrom(i + 1), tokens)).Parsed?
    ensures IsRead(s, i, a, m')
  {
    hide IsWord, At;
    var end := i + 1 + |name|;
    a := Deco(name, [], Bare);
    assert PrintAtom(a) == "%" + name + "" == "%" + name;
    m' := Machine(Plain, Nothing, tokens + [Decorator(s[i + 1..end], [])]);
    if CharAt(s, end) != '\0' {
      assert StepAt(s, end, Machine(Specifier, SpecifierFrom(i + 1), tokens)) == Go(m', true);
    }
  }

  /** What the parser accepts after a percent sign is a decorator. */
  lemma AcceptedDecorator(s: string, i: nat, m: Machine) returns (a: Atom, m': Machine)
    requires i < |s| && IsPlain(m) && InRange(m.current, i) && s[i] == '%' && Run(s, i, m).Parsed?
    ensures IsRead(s, i, a, m')
  {
    hide Run, IsRead, IsWord, Flushed;
    NameStarts(s, i, m);
    var name := WordAt(s, i + 1);
    AtSlice(s, i, i + 1);
    assert s[i..i + 1] == "%";
    AtJoin(s, i, "%", name);
    RunsThroughSpecifier(s, i, name, m);
    if CharAt(s, i + 1 + |name|) == '<' {
      a, m' := AcceptedBrackets(s, i, name, Flushed(s, i, m));
    } else {
      a, m' := AcceptedBare(s, i, name, Flushed(s, i, m));
    }
  }

  lemma NameStarts(s: string, i: nat, m: Machine)
    requires i < |s| && IsPlain(m) && InRange(m.current, i) && s[i] == '%' && Run(s, i, m).Parsed?
    ensures IsIdent(CharAt(s, i + 1))
  {
    assert Run(s, i, m) == Run(s, i + 1, Machine(Specifier, Nothing, Flushed(s, i, m)));
  }

  lemma PrintedCons(s: string, i: nat, a: Atom, rest: seq<Atom>)
    requires IsAtom(a) && At(s, i, PrintAtom(a)) && Printable(rest) && Ends(s, i + |PrintAtom(a)|, Print(rest))
    requires a.Deco? && a.close.Bare? ==> !Continues(rest)
    ensures Printable([a] + rest) && Ends(s, i, Print([a] + rest))
  {
    hide PrintAtom, IsAtom;
    var atoms := [a] + rest;
    assert atoms[1..] == rest;
    forall k | 0 <= k < |atoms| ensures PrintableAt(atoms, k) {
      if k > 0 {
        assert PrintableAt(rest, k - 1);
        assert atoms[k + 1..] == rest[k..] && atoms[k] == rest[k - 1];
      }
    }
    AtJoin(s, i, PrintAtom(a), Print(rest));
  }

  lemma DoesNotContinue(s: string, i: nat, rest: seq<Atom>)
    requires Ends(s, i, Print(rest)) && !IsIdent(CharAt(s, i)) && CharAt(s, i) != '<'
    ensures !Continues(rest)
  {
    if Continues(rest) { AtIndex(s, i, Print(rest), 0); }
  }

  /** What is accepted from plain mode on is a list of atoms. */
  lemma {:induction false} AcceptedIsPrinted(s: string, i: nat, m: Machine) returns (atoms: seq<Atom>)
    requires i <= |s| && IsPlain(m) && InRange(m.current, i) && Run(s, i, m).Parsed?
    ensures Printable(atoms) && Ends(s, i, Print(atoms))
    decreases |s| - i
  {
    hide Run, Printable, Print, PrintAtom, Continues, IsAtom, SoFar;
    if CharAt(s, i) == '\0' {
      atoms := NothingPrinted(s, i);
    } else if s[i] == '%' {
      var a, next := AcceptedDecorator(s, i, m);
      var end := i + |PrintAtom(a)|;
      var rest;
      if CharAt(s, end) == '\0' { rest := NothingPrinted(s, end); } else { rest := AcceptedIsPrinted(s, end, next); }
      if a.close.Bare? { DoesNotContinue(s, end, rest); }
      PrintedCons(s, i, a, rest);
      atoms := [a] + rest;
    } else {
      var a, next := AcceptedText(s, i, m);
      var rest := AcceptedIsPrinted(s, i + |PrintAtom(a)|, next);
      PrintedCons(s, i, a, rest);
      atoms := [a] + rest;
    }
  }

  lemma NothingPrinted(s: string, i: nat) returns (atoms: seq<Atom>)
    requires i <= |s| && CharAt(s, i) == '\0'
    ensures Printable(atoms) && Ends(s, i, Print(atoms))
  {
    atoms := [];
  }

  lemma AcceptedText(s: string, i: nat, m: Machine) returns (a: Atom, m': Machine)
    requires i < |s| && IsPlain(m) && InRange(m.current, i) && s[i] != '%' && s[i] != '\0' && Run(s, i, m).Parsed?
    ensures a.Text? && IsAtom(a) && At(s, i, PrintAtom(a)) && |PrintAtom(a)| > 0
    ensures var end := i + |PrintAtom(a)|;
      end <= |s| && IsPlain(m') && InRange(m'.current, end) && Run(s, end, m').Parsed?
  {
    if s[i] == '\\' {
      EscapeIsInside(s, i, m);
      m' := EscapedChar(s, i, m);
      a := Text(s[i + 1], true);
    } else {
      m' := PlainChar(s, i, m);
      a := Text(s[i], false);
    }
  }

  lemma EscapeIsInside(s: string, i: nat, m: Machine)
    requires i < |s| && IsPlain(m) && InRange(m.current, i) && s[i] == '\\' && Run(s, i, m).Parsed?
    ensures i + 1 < |s|
  {
    assert Run(s, i, m) == Run(s, i + 1, Machine(Escaped, Nothing, Flushed(s, i, m)));
  }

  /**
    Exactly these strings are parsed: those that are printed from some list of atoms, up to their
    end or to a NUL in them.
   */
  lemma ParsesIff(s: string)
    ensures Run(s, 0, START).Parsed? <==> exists atoms :: Printable(atoms) && Ends(s, 0, Print(atoms))
  {
    if Run(s, 0, START).Parsed? { var atoms := AcceptedIsPrinted(s, 0, START); }
    if atoms :| Printable(atoms) && Ends(s, 0, Print(atoms)) { ParsePrinted(s, atoms); }
  }

  /** A percent sign that no name follows is rejected, wherever plain text is read. */
  lemma PercentNeedsName(s: string, i: nat, m: Machine)
    requires i < |s| && IsPlain(m) && InRange(m.current, i) && s[i] == '%'
    requires !IsIdent(CharAt(s, i + 1))
    ensures Run(s, i, m).Rejected?
  {
    assert Run(s, i, m) == Run(s, i + 1, Machine(Specifier, Nothing, Flushed(s, i, m)));
  }
}
