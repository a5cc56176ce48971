/** What a script's author relies on: how far `break` and `continue` reach, what each construct runs, in which order
    and with which status, and what `set -e` spares. The laws speak of whole commands and of what their parts do. */
module ControlLaws {
  import opened ControlSemantics
  import opened Wrappers

  type Cmd = Command<()>

  function Plain(node: Node<()>): Cmd {
    Command((), false, node)
  }

  /** a; b */
  function Then(a: Cmd, b: Cmd): Cmd {
    Plain(List(a, b))
  }

  function Builtin(words: nat): Cmd {
    Plain(Simple((), words))
  }

  // ---------- nested loops ----------

  /** One loop of a nest, with what is before and after the inner loop in its body. */
  datatype Frame =
    | ForFrame(name: string, words: nat, before: Cmd, after: Cmd)
    | WhileFrame(until: bool, test: Cmd, before: Cmd, after: Cmd)

  /** The node of the loop f with the given body. */
  function LoopNode(f: Frame, body: Cmd): Node<()> {
    match f
    case ForFrame(name, words, _, _) => For((), name, words, body)
    case WhileFrame(until, test, _, _) => While((), until, test, body)
  }

  function BodyOf(f: Frame, inner: Cmd): Cmd {
    Then(f.before, Then(inner, f.after))
  }

  function LoopOf(f: Frame, inner: Cmd): Cmd {
    Plain(LoopNode(f, BodyOf(f, inner)))
  }

  /** The loops of fs, outermost first, around core. */
  function Nest(fs: seq<Frame>, core: Cmd): Cmd {
    if fs == [] then core else LoopOf(fs[0], Nest(fs[1..], core))
  }

  /** How all commands of a nest are run. */
  datatype Setting<!W> = Setting(env: Env<W>, fuel: nat, ignore: bool, inFn: bool)

  function Do<W>(x: Setting<W>, c: Cmd, depth: nat, st: State<W>): Outcome<W> {
    Exec(x.env, x.fuel, c, x.ignore, depth, x.inFn, st)
  }

  /** The state in which the body of f begins its first turn, if it does. */
  function TurnBegins<W>(x: Setting<W>, f: Frame, depth: nat, st: State<W>): Option<State<W>> {
    if f.ForFrame? then
      var (list, w) := x.env.oracle.expand(f.words, st.last, st.w);
      if !x.env.oracle.identifier(f.name) || list == [] then None
      else
        var bound := x.env.oracle.bind(f.name, list[0], w);
        if bound.None? then None else Some(st.(w := bound.value))
    else
      var o := Exec(x.env, x.fuel, f.test, true, depth + 1, x.inFn, st);
      if o.Ended? && o.signal.Normal? && (o.status == 0) != f.until then Some(o.st) else None
  }

  /** The state in which the first turn of f comes to the inner command, if it does. */
  function Enter<W>(x: Setting<W>, f: Frame, depth: nat, st: State<W>): Option<State<W>> {
    match TurnBegins(x, f, depth, st)
    case None => None
    case Some(st') =>
      var o := Do(x, f.before, depth + 1, st');
      if o.Ended? && o.signal.Normal? then Some(o.st) else None
  }

  /** The state in which the first turns of all loops come to the innermost command. */
  function Reach<W>(x: Setting<W>, fs: seq<Frame>, depth: nat, st: State<W>): Option<State<W>>
    decreases |fs|
  {
    if fs == [] then Some(st)
    else
      match Enter(x, fs[0], depth, st)
      case None => None
      case Some(st') => Reach(x, fs[1..], depth + 1, st')
  }

  /** The state in which loop i of the nest is run first. */
  function At<W>(x: Setting<W>, fs: seq<Frame>, i: nat, st: State<W>): State<W>
    requires i <= |fs|
  {
    var r := Reach(x, fs[..i], 0, st);
    if r.Some? then r.value else st
  }

  lemma {:induction false} ReachSplits<W>(x: Setting<W>, fs: seq<Frame>, depth: nat, i: nat, st: State<W>)
    requires i <= |fs| && Reach(x, fs, depth, st).Some?
    ensures Reach(x, fs[..i], depth, st).Some?
    ensures Reach(x, fs, depth, st) == Reach(x, fs[i..], depth + i, Reach(x, fs[..i], depth, st).value)
    decreases i
  {
    if i == 0 {
      assert fs[0..] == fs;
    } else {
      hide Enter;
      ReachSplits(x, fs[1..], depth + 1, i - 1, Enter(x, fs[0], depth, st).value);
      assert fs[..i][1..] == fs[1..][..i - 1] && fs[..i][0] == fs[0] && fs[1..][i - 1..] == fs[i..];
    }
  }

  /** The body of a loop, from where its first turn comes to the inner command. */
  lemma BodyStops<W>(x: Setting<W>, f: Frame, inner: Cmd, depth: nat, st: State<W>, o: Outcome<W>)
    requires Do(x, f.before, depth, st).Ended? && Do(x, f.before, depth, st).signal.Normal?
    requires o == Do(x, inner, depth, Do(x, f.before, depth, st).st) && o.Ended? && !o.signal.Normal?
             && o.st.last == o.status
    ensures Do(x, BodyOf(f, inner), depth, st) == o
  {
    hide Exec;
    ThenRuns(x, inner, f.after, depth, Do(x, f.before, depth, st).st);
    ThenRuns(x, f.before, Then(inner, f.after), depth, st);
  }

  /** Every command leaves its status in `$?`. */
  function Settled<W>(o: Outcome<W>): Outcome<W> {
    match o
    case Ended(signal, status, st) => Ended(signal, status, st.(last := status))
    case _ => o
  }

  lemma ThenRuns<W>(x: Setting<W>, a: Cmd, b: Cmd, depth: nat, st: State<W>)
    ensures var o := Do(x, a, depth, st);
            var r := if o.Ended? && o.signal.Normal? then Do(x, b, depth, o.st) else o;
            Do(x, Then(a, b), depth, st) == Settled(r)
  {
    var n := List(a, b);
    assert ExecNode(x.env, x.fuel, n, x.ignore, depth, x.inFn, st)
        == var o := Do(x, a, depth, st); if o.Ended? && o.signal.Normal? then Do(x, b, depth, o.st) else o;
    hide ExecNode;
    assert !Plain(n).Null?;
  }

  /** A loop whose body breaks in its first turn. */
  lemma LoopBroken<W>(x: Setting<W>, f: Frame, inner: Cmd, depth: nat, st: State<W>, o: Outcome<W>)
    requires Enter(x, f, depth, st).Some? && o == Do(x, inner, depth + 1, Enter(x, f, depth, st).value)
    requires o.Ended? && o.signal.Break? && o.signal.n > 0 && o.st.last == o.status
    ensures Do(x, LoopOf(f, inner), depth, st)
            == o.(signal := if o.signal.n > 1 then Break(o.signal.n - 1) else Normal)
  {
    hide Exec;
    var st1 := TurnBegins(x, f, depth, st).value;
    BodyStops(x, f, inner, depth + 1, st1, o);
    LoopRuns(x, f, BodyOf(f, inner), depth, st, o);
  }

  /** What a loop does after its first turn, when its body ended in o. */
  function AfterFirst<W>(x: Setting<W>, f: Frame, body: Cmd, depth: nat, st: State<W>, o: Outcome<W>): Outcome<W>
    requires o.Ended?
  {
    match f
    case ForFrame(name, words, _, _) =>
      var list := x.env.oracle.expand(words, st.last, st.w).0;
      if list == [] then o
      else ExecFor(x.env, x.fuel, name, list[1..], body, x.ignore, depth + 1, x.inFn, o.status, o.st)
    case WhileFrame(_, _, _, _) =>
      if x.fuel == 0 then OutOfFuel
      else ExecWhile(x.env, x.fuel - 1, LoopNode(f, body), x.ignore, depth, x.inFn, o.status, o.st)
  }

  function Turned<W>(x: Setting<W>, f: Frame, body: Cmd, depth: nat, st: State<W>, o: Outcome<W>): Outcome<W>
    requires o.Ended?
  {
    match AfterBody(o.signal)
    case Leave(signal) => o.(signal := signal)
    case GoOn => AfterFirst(x, f, body, depth, st, o)
  }

  lemma LoopRuns<W>(x: Setting<W>, f: Frame, body: Cmd, depth: nat, st: State<W>, o: Outcome<W>)
    requires TurnBegins(x, f, depth, st).Some?
    requires o == Do(x, body, depth + 1, TurnBegins(x, f, depth, st).value) && o.Ended?
    ensures Do(x, Plain(LoopNode(f, body)), depth, st) == Settled(Turned(x, f, body, depth, st, o))
  {
    var n := LoopNode(f, body);
    if f.ForFrame? {
      ForRuns(x, f, body, depth, st, o);
    } else {
      WhileRuns(x, f, body, depth, st, o);
    }
    NodeSettles(x, n, depth, st);
  }

  lemma NodeSettles<W>(x: Setting<W>, n: Node<()>, depth: nat, st: State<W>)
    ensures Do(x, Plain(n), depth, st) == Settled(ExecNode(x.env, x.fuel, n, x.ignore, depth, x.inFn, st))
  {
    hide ExecNode;
    assert !Plain(n).Null?;
  }

  lemma ForRuns<W>(x: Setting<W>, f: Frame, body: Cmd, depth: nat, st: State<W>, o: Outcome<W>)
    requires f.ForFrame? && TurnBegins(x, f, depth, st).Some?
    requires o == Do(x, body, depth + 1, TurnBegins(x, f, depth, st).value) && o.Ended?
    ensures ExecNode(x.env, x.fuel, LoopNode(f, body), x.ignore, depth, x.inFn, st)
            == Turned(x, f, body, depth, st, o)
  {
    var (list, w) := x.env.oracle.expand(f.words, st.last, st.w);
    assert ExecNode(x.env, x.fuel, LoopNode(f, body), x.ignore, depth, x.inFn, st)
        == ExecFor(x.env, x.fuel, f.name, list, body, x.ignore, depth + 1, x.inFn, 0, st.(w := w));
  }

  lemma WhileRuns<W>(x: Setting<W>, f: Frame, body: Cmd, depth: nat, st: State<W>, o: Outcome<W>)
    requires f.WhileFrame? && TurnBegins(x, f, depth, st).Some?
    requires o == Do(x, body, depth + 1, TurnBegins(x, f, depth, st).value) && o.Ended?
    ensures ExecNode(x.env, x.fuel, LoopNode(f, body), x.ignore, depth, x.inFn, st)
            == Turned(x, f, body, depth, st, o)
  {
    var n := LoopNode(f, body);
    assert ExecNode(x.env, x.fuel, n, x.ignore, depth, x.inFn, st)
        == ExecWhile(x.env, x.fuel, n, x.ignore, depth, x.inFn, 0, st);
    hide Exec;
  }

  /** A loop whose body continues an outer loop in its first turn. */
  lemma LoopContinued<W>(x: Setting<W>, f: Frame, inner: Cmd, depth: nat, st: State<W>, o: Outcome<W>)
    requires Enter(x, f, depth, st).Some? && o == Do(x, inner, depth + 1, Enter(x, f, depth, st).value)
    requires o.Ended? && o.signal.Continue? && o.signal.n > 0 && o.st.last == o.status
    ensures o.signal.n > 1 ==>
              Do(x, LoopOf(f, inner), depth, st) == o.(signal := Continue(o.signal.n - 1))
    ensures o.signal.n == 1 ==>
              Do(x, LoopOf(f, inner), depth, st) == Settled(AfterFirst(x, f, BodyOf(f, inner), depth, st, o))
  {
    hide Exec;
    var st1 := TurnBegins(x, f, depth, st).value;
    BodyStops(x, f, inner, depth + 1, st1, o);
    LoopRuns(x, f, BodyOf(f, inner), depth, st, o);
    hide AfterFirst;
  }

  /** A signal that reaches beyond all loops of a nest leaves each of them. */
  lemma {:induction false} NestLeft<W>(x: Setting<W>, fs: seq<Frame>, core: Cmd, depth: nat, st: State<W>,
        o: Outcome<W>)
    requires Reach(x, fs, depth, st).Some? && o == Do(x, core, depth + |fs|, Reach(x, fs, depth, st).value)
    requires o.Ended? && !o.signal.Normal? && o.signal.n > |fs| && o.st.last == o.status
    ensures Do(x, Nest(fs, core), depth, st)
            == o.(signal := if o.signal.Break? then Break(o.signal.n - |fs|) else Continue(o.signal.n - |fs|))
    decreases |fs|
  {
    if fs != [] {
      hide Exec, Enter, LoopOf;
      var st1 := Enter(x, fs[0], depth, st).value;
      NestLeft(x, fs[1..], core, depth + 1, st1, o);
      var inner := Do(x, Nest(fs[1..], core), depth + 1, st1);
      if o.signal.Break? {
        LoopBroken(x, fs[0], Nest(fs[1..], core), depth, st, inner);
      } else {
        LoopContinued(x, fs[0], Nest(fs[1..], core), depth, st, inner);
      }
    }
  }

  /** `a; next` after a signal, and after none. */
  lemma ThenStops<W>(x: Setting<W>, a: Cmd, next: Cmd, depth: nat, st: State<W>)
    requires var o := Do(x, a, depth, st); o.Ended? && !o.signal.Normal? && o.st.last == o.status
    ensures Do(x, Then(a, next), depth, st) == Do(x, a, depth, st)
  {
    hide Exec;
    ThenRuns(x, a, next, depth, st);
  }

  // ---------- break and continue ----------

  function AtMost(n: nat, d: nat): nat {
    if n < d then n else d
  }

  lemma {:induction false} NestTail(fs: seq<Frame>, core: Cmd, j: nat)
    requires j < |fs|
    ensures Nest(fs[j..], core) == LoopOf(fs[j], Nest(fs[j + 1..], core))
  {
    assert fs[j..][1..] == fs[j + 1..];
  }

  /** `break n` in d loops leaves exactly min(n, d) of them: each loop further in ends with a signal, so that nothing
      after it in the loop around it is run; the min(n, d)-th from within ends with none, so that what follows it is
      run next. No command but those before the `break` has been run. */
  lemma BreakLaw<W>(x: Setting<W>, fs: seq<Frame>, words: nat, st: State<W>, n: nat, w: W, i: nat, next: Cmd)
    requires fs != [] && n >= 1 && Reach(x, fs, 0, st).Some?
    requires var r := Reach(x, fs, 0, st).value; x.env.oracle.act(words, r.last, r.w) == BreakLoop(n, w)
    requires |fs| - AtMost(n, |fs|) <= i <= |fs|
    ensures var j := |fs| - AtMost(n, |fs|);
            var after := Reach(x, fs, 0, st).value.(w := w, last := 0);
            var inner := Nest(fs[i..], Builtin(words));
            var o, both := Do(x, inner, i, At(x, fs, i, st)), Do(x, Then(inner, next), i, At(x, fs, i, st));
            && o.Ended? && o.status == 0 && o.st == after && (o.signal.Normal? <==> i == j)
            && both == if i == j then Settled(Do(x, next, i, after)) else o
  {
    hide Exec, LoopOf, Enter;
    var j := |fs| - AtMost(n, |fs|);
    var r := Reach(x, fs, 0, st).value;
    var core := Builtin(words);
    BuiltinBreaks(x, words, |fs|, r, n, w);
    ReachSplits(x, fs, 0, i, st);
    if i > j {
      NestLeft(x, fs[i..], core, i, At(x, fs, i, st), Do(x, core, |fs|, r));
      ThenStops(x, Nest(fs[i..], core), next, i, At(x, fs, i, st));
    } else {
      var st1 := Enter(x, fs[j], j, At(x, fs, j, st)).value;
      assert fs[j..][0] == fs[j] && fs[j..][1..] == fs[j + 1..];
      NestLeft(x, fs[j + 1..], core, j + 1, st1, Do(x, core, |fs|, r));
      NestTail(fs, core, j);
      LoopBroken(x, fs[j], Nest(fs[j + 1..], core), j, At(x, fs, j, st), Do(x, Nest(fs[j + 1..], core), j + 1, st1));
      ThenRuns(x, Nest(fs[j..], core), next, j, At(x, fs, j, st));
    }
  }

  lemma BuiltinBreaks<W>(x: Setting<W>, words: nat, depth: nat, st: State<W>, n: nat, w: W)
    requires x.env.oracle.act(words, st.last, st.w) == BreakLoop(n, w) && n >= 1 && depth > 0
    ensures Do(x, Builtin(words), depth, st) == Ended(Break(AtMost(n, depth)), 0, st.(w := w, last := 0))
  {
    var node := Simple((), words);
    assert ExecSimple(x.env, x.fuel, node, x.ignore, depth, x.inFn, st)
        == Ended(Break(AtMost(n, depth)), 0, st.(w := w));
    NodeSettles(x, node, depth, st);
  }

  /** `continue n` in d loops leaves all but one of the min(n, d) innermost ones in the same way, and the last of them
      goes on with its next turn: a `for` loop with the words after its first, a `while` loop with its test. */
  lemma ContinueLaw<W>(x: Setting<W>, fs: seq<Frame>, words: nat, st: State<W>, n: nat, w: W, i: nat, next: Cmd)
    requires fs != [] && n >= 1 && Reach(x, fs, 0, st).Some?
    requires var r := Reach(x, fs, 0, st).value; x.env.oracle.act(words, r.last, r.w) == ContinueLoop(n, w)
    requires |fs| - AtMost(n, |fs|) <= i <= |fs|
    ensures var j := |fs| - AtMost(n, |fs|);
            var after := Reach(x, fs, 0, st).value.(w := w, last := 0);
            var inner := Nest(fs[i..], Builtin(words));
            var o, both := Do(x, inner, i, At(x, fs, i, st)), Do(x, Then(inner, next), i, At(x, fs, i, st));
            && (i > j ==> o.Ended? && o.status == 0 && o.st == after && !o.signal.Normal? && both == o)
            && (i == j ==>
                  o == Settled(AgainFrom(x, fs[j], Nest(fs[j + 1..], Builtin(words)), j, At(x, fs, j, st), after)))
  {
    hide Exec, LoopOf, Enter, AgainFrom;
    var j := |fs| - AtMost(n, |fs|);
    var r := Reach(x, fs, 0, st).value;
    var core := Builtin(words);
    BuiltinContinues(x, words, |fs|, r, n, w);
    ReachSplits(x, fs, 0, i, st);
    if i > j {
      NestLeft(x, fs[i..], core, i, At(x, fs, i, st), Do(x, core, |fs|, r));
      ThenStops(x, Nest(fs[i..], core), next, i, At(x, fs, i, st));
    } else {
      var st1 := Enter(x, fs[j], j, At(x, fs, j, st)).value;
      assert fs[j..][0] == fs[j] && fs[j..][1..] == fs[j + 1..];
      NestLeft(x, fs[j + 1..], core, j + 1, st1, Do(x, core, |fs|, r));
      NestTail(fs, core, j);
      var o := Do(x, Nest(fs[j + 1..], core), j + 1, st1);
      LoopContinued(x, fs[j], Nest(fs[j + 1..], core), j, At(x, fs, j, st), o);
      AgainIs(x, fs[j], Nest(fs[j + 1..], core), j, At(x, fs, j, st), o);
    }
  }

  /** The further turns of a loop that was first run in st and has come to `after`, its last status being 0. */
  function AgainFrom<W>(x: Setting<W>, f: Frame, inner: Cmd, depth: nat, st: State<W>, after: State<W>): Outcome<W> {
    if f.ForFrame? then
      var list := x.env.oracle.expand(f.words, st.last, st.w).0;
      ExecFor(x.env, x.fuel, f.name, if list == [] then [] else list[1..], BodyOf(f, inner), x.ignore, depth + 1,
              x.inFn, 0, after)
    else if x.fuel == 0 then OutOfFuel
    else
      ExecWhile(x.env, x.fuel - 1, While((), f.until, f.test, BodyOf(f, inner)), x.ignore, depth, x.inFn, 0, after)
  }

  lemma AgainIs<W>(x: Setting<W>, f: Frame, inner: Cmd, depth: nat, st: State<W>, o: Outcome<W>)
    requires o.Ended? && o.status == 0 && Enter(x, f, depth, st).Some?
    ensures AfterFirst(x, f, BodyOf(f, inner), depth, st, o) == AgainFrom(x, f, inner, depth, st, o.st)
  {
    hide ExecFor, ExecWhile;
  }

  lemma BuiltinContinues<W>(x: Setting<W>, words: nat, depth: nat, st: State<W>, n: nat, w: W)
    requires x.env.oracle.act(words, st.last, st.w) == ContinueLoop(n, w) && n >= 1 && depth > 0
    ensures Do(x, Builtin(words), depth, st) == Ended(Continue(AtMost(n, depth)), 0, st.(w := w, last := 0))
  {
    var node := Simple((), words);
    assert ExecSimple(x.env, x.fuel, node, x.ignore, depth, x.inFn, st)
        == Ended(Continue(AtMost(n, depth)), 0, st.(w := w));
    NodeSettles(x, node, depth, st);
  }

  /** A count that is not positive leaves all loops, with status 1, for both builtins. */
  lemma BadCountLaw<W>(x: Setting<W>, fs: seq<Frame>, words: nat, st: State<W>, n: int, w: W)
    requires fs != [] && n <= 0 && x.ignore && Reach(x, fs, 0, st).Some?
    requires var r := Reach(x, fs, 0, st).value;
             var a := x.env.oracle.act(words, r.last, r.w);
             a == BreakLoop(n, w) || a == ContinueLoop(n, w)
    ensures Do(x, Nest(fs, Builtin(words)), 0, st)
            == Ended(Normal, 1, Reach(x, fs, 0, st).value.(w := w, last := 1))
  {
    var r := Reach(x, fs, 0, st).value;
    var core := Builtin(words);
    BadCount(x, words, |fs|, r, n, w);
    hide Exec, LoopOf, Enter;
    var st1 := Enter(x, fs[0], 0, st).value;
    NestLeft(x, fs[1..], core, 1, st1, Do(x, core, |fs|, r));
    LoopBroken(x, fs[0], Nest(fs[1..], core), 0, st, Do(x, Nest(fs[1..], core), 1, st1));
  }

  lemma BadCount<W>(x: Setting<W>, words: nat, depth: nat, st: State<W>, n: int, w: W)
    requires n <= 0 && depth > 0 && x.ignore
    requires var a := x.env.oracle.act(words, st.last, st.w); a == BreakLoop(n, w) || a == ContinueLoop(n, w)
    ensures Do(x, Builtin(words), depth, st) == Ended(Break(depth), 1, st.(w := w, last := 1))
  {
    var node := Simple((), words);
    assert ExecSimple(x.env, x.fuel, node, x.ignore, depth, x.inFn, st) == Ended(Break(depth), 1, st.(w := w));
    NodeSettles(x, node, depth, st);
  }

  /** Outside all loops both builtins do nothing, with status 0. */
  lemma NoLoopLaw<W>(x: Setting<W>, words: nat, st: State<W>, n: int, w: W)
    requires var a := x.env.oracle.act(words, st.last, st.w); a == BreakLoop(n, w) || a == ContinueLoop(n, w)
    ensures Do(x, Builtin(words), 0, st) == Ended(Normal, 0, st.(w := w, last := 0))
  {
    var node := Simple((), words);
    assert ExecSimple(x.env, x.fuel, node, x.ignore, 0, x.inFn, st) == Ended(Normal, 0, st.(w := w));
    NodeSettles(x, node, 0, st);
  }

  /** A `break n` that is the test of a loop with `depth` loops around leaves min(n, depth + 1) loops too, and the
      body is not run. */
  lemma BreakInTestLaw<W>(x: Setting<W>, until: bool, words: nat, body: Cmd, depth: nat, st: State<W>, n: nat, w: W)
    requires n >= 1 && x.env.oracle.act(words, st.last, st.w) == BreakLoop(n, w)
    ensures var m := AtMost(n, depth + 1);
            Do(x, Plain(While((), until, Builtin(words), body)), depth, st)
            == Ended(if m == 1 then Normal else Break(m - 1), 0, st.(w := w, last := 0))
  {
    var node := While((), until, Builtin(words), body);
    var y := x.(ignore := true);
    BuiltinBreaks(y, words, depth + 1, st, n, w);
    var o := Exec(x.env, x.fuel, Builtin(words), true, depth + 1, x.inFn, st);
    assert o == Do(y, Builtin(words), depth + 1, st);
    hide Exec;
    assert ExecNode(x.env, x.fuel, node, x.ignore, depth, x.inFn, st)
        == ExecWhile(x.env, x.fuel, node, x.ignore, depth, x.inFn, 0, st);
    NodeSettles(x, node, depth, st);
  }

  // ---------- what is run, and with which status ----------

  /** `a && b`, `a || b`, `if a; then b; else c; fi` and `! a`, when a ends with status s. */
  lemma ConnectiveLaw<W>(x: Setting<W>, a: Node<()>, b: Cmd, c: Cmd, depth: nat, st: State<W>, s: int, st1: State<W>)
    requires Exec(x.env, x.fuel, Plain(a), true, depth, x.inFn, st) == Ended(Normal, s, st1)
    ensures Do(x, Plain(AndOr(true, Plain(a), b)), depth, st)
            == if s == 0 then Settled(Do(x, b, depth, st1)) else Ended(Normal, s, st1)
    ensures Do(x, Plain(AndOr(false, Plain(a), b)), depth, st)
            == if s == 0 then Ended(Normal, 0, st1) else Settled(Do(x, b, depth, st1))
    ensures Do(x, Plain(If((), Plain(a), b, c)), depth, st) == Settled(Do(x, if s == 0 then b else c, depth, st1))
    ensures var t := if s == 0 then 1 else 0;
            Do(x, Command((), true, a), depth, st) == Ended(Normal, t, st1.(last := t))
  {
    AndOrRuns(x, true, Plain(a), b, depth, st);
    AndOrRuns(x, false, Plain(a), b, depth, st);
    IfRuns(x, Plain(a), b, c, depth, st);
    NegationRuns(x, a, depth, st);
    assert st1.last == s;
    hide Exec;
  }

  lemma AndOrRuns<W>(x: Setting<W>, and: bool, a: Cmd, b: Cmd, depth: nat, st: State<W>)
    ensures var o := Exec(x.env, x.fuel, a, true, depth, x.inFn, st);
            Do(x, Plain(AndOr(and, a, b)), depth, st)
            == Settled(if o.Ended? && o.signal.Normal? && (o.status == 0) == and then Do(x, b, depth, o.st) else o)
  {
    NodeSettles(x, AndOr(and, a, b), depth, st);
    hide Exec;
  }

  lemma IfRuns<W>(x: Setting<W>, a: Cmd, b: Cmd, c: Cmd, depth: nat, st: State<W>)
    ensures var o := Exec(x.env, x.fuel, a, true, depth, x.inFn, st);
            Do(x, Plain(If((), a, b, c)), depth, st)
            == Settled(if o.Ended? && o.signal.Normal? then Do(x, if o.status == 0 then b else c, depth, o.st) else o)
  {
    NodeSettles(x, If((), a, b, c), depth, st);
    hide Exec;
  }

  lemma NegationRuns<W>(x: Setting<W>, a: Node<()>, depth: nat, st: State<W>)
    ensures var o := Exec(x.env, x.fuel, Plain(a), true, depth, x.inFn, st);
            var t := if o.Ended? && o.status == 0 then 1 else 0;
            Do(x, Command((), true, a), depth, st)
            == if o.Ended? then Ended(o.signal, t, o.st.(last := t)) else o
  {
    hide ExecNode;
  }

  /** Under `set -e` a simple command that fails exits with its status, unless its failure is ignored. */
  lemma FailureLaw<W>(x: Setting<W>, words: nat, depth: nat, st: State<W>, s: int, w: W)
    requires x.env.oracle.act(words, st.last, st.w) == Done(s, w)
    ensures var after := st.(w := w, last := s);
            if s == 0 || x.ignore then Do(x, Builtin(words), depth, st) == Ended(Normal, s, after)
            else if x.env.errexit then Do(x, Builtin(words), depth, st) == Exited(after)
            else Do(x, Builtin(words), depth, st) == Ended(Normal, s, after.(failures := st.failures + [s]))
  {
    var node := Simple((), words);
    assert ExecSimple(x.env, x.fuel, node, x.ignore, depth, x.inFn, st) == Ended(Normal, s, st.(w := w));
    NodeSettles(x, node, depth, st);
  }

  /** What `set -e` spares: a negated command, whatever it is; and the tests of `&&`, `||`, `if`, `while` and `until`:
      where one of these exits, it is the command that follows the test. */
  lemma SparedLaw<W>(x: Setting<W>, a: Cmd, b: Cmd, c: Cmd, n: Node<()>, choice: bool, depth: nat, st: State<W>)
    ensures !Do(x, Command((), true, n), depth, st).Exited?
    ensures Do(x, Plain(AndOr(choice, a, b)), depth, st).Exited? ==>
              var o := Exec(x.env, x.fuel, a, true, depth, x.inFn, st);
              o.Ended? && Do(x, b, depth, o.st).Exited?
    ensures Do(x, Plain(If((), a, b, c)), depth, st).Exited? ==>
              var o := Exec(x.env, x.fuel, a, true, depth, x.inFn, st);
              o.Ended? && (Do(x, b, depth, o.st).Exited? || Do(x, c, depth, o.st).Exited?)
    ensures !Exec(x.env, x.fuel, a, true, depth, x.inFn, st).Exited?
  {
    AndOrRuns(x, choice, a, b, depth, st);
    IfRuns(x, a, b, c, depth, st);
    NegationRuns(x, n, depth, st);
    hide Exec;
  }

  predicate BodyExits<W>(x: Setting<W>, body: Cmd, depth: nat, fuel: nat, s: State<W>) {
    Exec(x.env, fuel, body, x.ignore, depth + 1, x.inFn, s).Exited?
  }

  /** A loop whose body never exits does not exit either, whatever its test does. */
  lemma {:induction false} TestSpared<W(!new)>(x: Setting<W>, until: bool, test: Cmd, body: Cmd, depth: nat,
        retval: int, st: State<W>)
    requires forall fuel: nat, s :: !BodyExits(x, body, depth, fuel, s)
    ensures !ExecWhile(x.env, x.fuel, While((), until, test, body), x.ignore, depth, x.inFn, retval, st).Exited?
    decreases x.fuel
  {
    var o := Exec(x.env, x.fuel, test, true, depth + 1, x.inFn, st);
    if o.Ended? {
      var b := if o.signal.Normal? then Exec(x.env, x.fuel, body, x.ignore, depth + 1, x.inFn, o.st) else o;
      assert !BodyExits(x, body, depth, x.fuel, o.st);
      hide Exec;
      if b.Ended? && x.fuel > 0 {
        var y := x.(fuel := x.fuel - 1);
        assert forall fuel: nat, s :: BodyExits(y, body, depth, fuel, s) == BodyExits(x, body, depth, fuel, s);
        TestSpared(y, until, test, body, depth, b.status, b.st);
      }
    }
  }

  // ---------- loops, turn by turn ----------

  /** One turn of a `for` loop, with the given word, from s to s'. */
  ghost predicate ForTurn<W>(x: Setting<W>, name: string, word: string, body: Cmd, depth: nat, s: State<W>, status: int,
        s': State<W>)
  {
    var bound := x.env.oracle.bind(name, word, s.w);
    bound.Some? && Do(x, body, depth + 1, s.(w := bound.value)) == Ended(Normal, status, s')
  }

  /** A `for` loop whose turns end normally runs its body for every word, in order, and has the last turn's status. */
  lemma ForLaw<W>(x: Setting<W>, name: string, words: nat, body: Cmd, depth: nat, st: State<W>,
        states: seq<State<W>>, statuses: seq<int>)
    requires var (list, w) := x.env.oracle.expand(words, st.last, st.w);
             && x.env.oracle.identifier(name) && |states| == |list| + 1 && |statuses| == |list|
             && states[0] == st.(w := w)
             && forall k :: 0 <= k < |list| ==>
                  ForTurn(x, name, list[k], body, depth, states[k], statuses[k], states[k + 1])
    ensures var status := if statuses == [] then 0 else statuses[|statuses| - 1];
            Do(x, Plain(For((), name, words, body)), depth, st)
            == Ended(Normal, status, states[|statuses|].(last := status))
  {
    var (list, w) := x.env.oracle.expand(words, st.last, st.w);
    hide Exec, ForTurn;
    ForTurns(x, name, list, body, depth, 0, states, statuses);
    NodeSettles(x, For((), name, words, body), depth, st);
  }

  lemma {:induction false} ForTurns<W>(x: Setting<W>, name: string, list: seq<string>, body: Cmd, depth: nat,
        retval: int, states: seq<State<W>>, statuses: seq<int>)
    requires |states| == |list| + 1 && |statuses| == |list|
    requires forall k :: 0 <= k < |list| ==>
               ForTurn(x, name, list[k], body, depth, states[k], statuses[k], states[k + 1])
    ensures ExecFor(x.env, x.fuel, name, list, body, x.ignore, depth + 1, x.inFn, retval, states[0])
            == Ended(Normal, if statuses == [] then retval else statuses[|statuses| - 1], states[|statuses|])
    decreases |list|
  {
    hide Exec;
    if list != [] {
      assert ForTurn(x, name, list[0], body, depth, states[0], statuses[0], states[1]);
      forall k | 0 <= k < |list| - 1
        ensures ForTurn(x, name, list[1..][k], body, depth, states[1..][k], statuses[1..][k], states[1..][k + 1])
      {
        assert ForTurn(x, name, list[k + 1], body, depth, states[k + 1], statuses[k + 1], states[k + 2]);
      }
      ForTurns(x, name, list[1..], body, depth, statuses[0], states[1..], statuses[1..]);
    }
  }

  /** One turn of a `while` or `until` loop, from s to s'. */
  ghost predicate WhileTurn<W>(x: Setting<W>, until: bool, test: Cmd, body: Cmd, depth: nat, s: State<W>, status: int,
        s': State<W>)
  {
    var o := Exec(x.env, x.fuel, test, true, depth + 1, x.inFn, s);
    && o.Ended? && o.signal.Normal? && (o.status == 0) != until
    && Do(x, body, depth + 1, o.st) == Ended(Normal, status, s')
  }

  /** A `while` loop goes on as long as its test succeeds, and an `until` loop as long as it fails; its status is that
      of the last turn of its body, or 0. */
  lemma WhileLaw<W>(x: Setting<W>, until: bool, test: Cmd, body: Cmd, depth: nat, st: State<W>,
        states: seq<State<W>>, statuses: seq<int>)
    requires |states| == |statuses| + 1 && |statuses| <= x.fuel && states[0] == st
    requires forall k :: 0 <= k < |statuses| ==>
               WhileTurn(x.(fuel := x.fuel - k), until, test, body, depth, states[k], statuses[k], states[k + 1])
    requires var o := Exec(x.env, x.fuel - |statuses|, test, true, depth + 1, x.inFn, states[|statuses|]);
             o.Ended? && o.signal.Normal? && (o.status == 0) == until
    ensures var status := if statuses == [] then 0 else statuses[|statuses| - 1];
            var last := Exec(x.env, x.fuel - |statuses|, test, true, depth + 1, x.inFn, states[|statuses|]).st;
            Do(x, Plain(While((), until, test, body)), depth, st) == Ended(Normal, status, last.(last := status))
  {
    hide Exec, WhileTurn;
    WhileTurns(x, until, test, body, depth, 0, states, statuses);
    NodeSettles(x, While((), until, test, body), depth, st);
  }

  lemma {:induction false} WhileTurns<W>(x: Setting<W>, until: bool, test: Cmd, body: Cmd, depth: nat, retval: int,
        states: seq<State<W>>, statuses: seq<int>)
    requires |states| == |statuses| + 1 && |statuses| <= x.fuel
    requires forall k :: 0 <= k < |statuses| ==>
               WhileTurn(x.(fuel := x.fuel - k), until, test, body, depth, states[k], statuses[k], states[k + 1])
    requires var o := Exec(x.env, x.fuel - |statuses|, test, true, depth + 1, x.inFn, states[|statuses|]);
             o.Ended? && o.signal.Normal? && (o.status == 0) == until
    ensures var last := Exec(x.env, x.fuel - |statuses|, test, true, depth + 1, x.inFn, states[|statuses|]).st;
            ExecWhile(x.env, x.fuel, While((), until, test, body), x.ignore, depth, x.inFn, retval, states[0])
            == Ended(Normal, if statuses == [] then retval else statuses[|statuses| - 1], last)
    decreases |statuses|
  {
    hide Exec;
    if statuses != [] {
      assert WhileTurn(x.(fuel := x.fuel - 0), until, test, body, depth, states[0], statuses[0], states[1]);
      var y := x.(fuel := x.fuel - 1);
      forall k | 0 <= k < |statuses| - 1
        ensures WhileTurn(y.(fuel := y.fuel - k), until, test, body, depth, states[1..][k], statuses[1..][k],
                          states[1..][k + 1])
      {
        assert WhileTurn(x.(fuel := x.fuel - (k + 1)), until, test, body, depth, states[k + 1], statuses[k + 1],
                         states[k + 2]);
      }
      WhileTurns(y, until, test, body, depth, statuses[0], states[1..], statuses[1..]);
    }
  }

  // ---------- case ----------

  /** The clauses after the first k. */
  function DropClauses(l: Clauses<()>, k: nat): Clauses<()> {
    if k == 0 || l.NoClause? then l else DropClauses(l.rest, k - 1)
  }

  predicate Fits<W>(x: Setting<W>, patterns: seq<nat>, word: string, w: W) {
    exists p :: p in patterns && x.env.oracle.matches(p, word, w)
  }

  predicate NoneFits<W>(x: Setting<W>, l: Clauses<()>, word: string, w: W) {
    l.Clause? ==> !Fits(x, l.patterns, word, w) && NoneFits(x, l.rest, word, w)
  }

  /** `case` runs the first clause with a pattern that fits; then `;;` ends it, `;&` runs the next clause too, and
      `;;&` looks for another one that fits. */
  lemma CaseLaw<W>(x: Setting<W>, subject: nat, l: Clauses<()>, k: nat, depth: nat, st: State<W>)
    requires var (word, w) := x.env.oracle.subject(subject, st.last, st.w);
             && DropClauses(l, k).Clause? && Fits(x, DropClauses(l, k).patterns, word, w)
             && forall j: nat :: j < k && DropClauses(l, j).Clause? ==> !Fits(x, DropClauses(l, j).patterns, word, w)
    ensures var (word, w) := x.env.oracle.subject(subject, st.last, st.w);
            var here := DropClauses(l, k);
            var o := Do(x, here.action, depth, st.(w := w));
            var r := Do(x, Plain(Case((), subject, l)), depth, st);
            if !o.Ended? || !o.signal.Normal? || here.after.Stop? then r == Settled(o)
            else if here.after.FallThrough? then
              here.rest.Clause? && here.rest.after.Stop? ==> r == Settled(Do(x, here.rest.action, depth, o.st))
            else NoneFits(x, here.rest, word, o.st.w) ==> r == Settled(o)
  {
    var (word, w) := x.env.oracle.subject(subject, st.last, st.w);
    var here := DropClauses(l, k);
    NodeSettles(x, Case((), subject, l), depth, st);
    ClausesSkipped(x, word, l, k, depth, 0, st.(w := w));
    FitsIsAny(x, here.patterns, word, w);
    hide Exec, ExecCase, Fits, AnyMatches;
    var o := Do(x, here.action, depth, st.(w := w));
    ActionsRun(x, word, here, depth, st.(w := w));
    if o.Ended? && here.rest.Clause? {
      ActionsRun(x, word, here.rest, depth, o.st);
    }
    hide ExecActions;
    if o.Ended? && NoneFits(x, here.rest, word, o.st.w) {
      NoClauseFits(x, word, here.rest, depth, o.status, o.st);
    }
  }

  lemma ActionsRun<W>(x: Setting<W>, word: string, l: Clauses<()>, depth: nat, st: State<W>)
    requires l.Clause?
    ensures var o := Do(x, l.action, depth, st);
            ExecActions(x.env, x.fuel, word, l, x.ignore, depth, x.inFn, st)
            == if !o.Ended? || !o.signal.Normal? || l.after.Stop? then o
               else if l.after.TestNext? then
                 ExecCase(x.env, x.fuel, word, l.rest, x.ignore, depth, x.inFn, o.status, o.st)
               else if l.rest.NoClause? then o
               else ExecActions(x.env, x.fuel, word, l.rest, x.ignore, depth, x.inFn, o.st)
  {
    hide Exec, ExecCase;
  }

  lemma FitsIsAny<W>(x: Setting<W>, patterns: seq<nat>, word: string, w: W)
    ensures Fits(x, patterns, word, w) <==> AnyMatches(x.env, patterns, word, w)
  {
    if Fits(x, patterns, word, w) {
      var p :| p in patterns && x.env.oracle.matches(p, word, w);
      var k :| 0 <= k < |patterns| && patterns[k] == p;
    }
  }

  lemma {:induction false} ClausesSkipped<W>(x: Setting<W>, word: string, l: Clauses<()>, k: nat, depth: nat,
        retval: int, st: State<W>)
    requires DropClauses(l, k).Clause?
    requires forall j: nat :: j < k && DropClauses(l, j).Clause? ==> !Fits(x, DropClauses(l, j).patterns, word, st.w)
    ensures ExecCase(x.env, x.fuel, word, l, x.ignore, depth, x.inFn, retval, st)
            == ExecCase(x.env, x.fuel, word, DropClauses(l, k), x.ignore, depth, x.inFn, retval, st)
    decreases k
  {
    hide Exec, ExecActions, Fits, AnyMatches;
    if k > 0 {
      assert l.Clause? && DropClauses(l, 0) == l;
      FitsIsAny(x, l.patterns, word, st.w);
      forall j: nat | j < k - 1 && DropClauses(l.rest, j).Clause?
        ensures !Fits(x, DropClauses(l.rest, j).patterns, word, st.w)
      {
        assert DropClauses(l, j + 1) == DropClauses(l.rest, j);
      }
      ClausesSkipped(x, word, l.rest, k - 1, depth, retval, st);
    }
  }

  lemma {:induction false} NoClauseFits<W>(x: Setting<W>, word: string, l: Clauses<()>, depth: nat, retval: int,
        st: State<W>)
    requires NoneFits(x, l, word, st.w)
    ensures ExecCase(x.env, x.fuel, word, l, x.ignore, depth, x.inFn, retval, st) == Ended(Normal, retval, st)
    decreases l
  {
    hide Exec, ExecActions, Fits, AnyMatches;
    if l.Clause? {
      FitsIsAny(x, l.patterns, word, st.w);
      NoClauseFits(x, word, l.rest, depth, retval, st);
    }
  }

  /** Where no pattern fits, nothing is run and the status is 0. */
  lemma NoCaseLaw<W>(x: Setting<W>, subject: nat, l: Clauses<()>, depth: nat, st: State<W>)
    requires var (word, w) := x.env.oracle.subject(subject, st.last, st.w); NoneFits(x, l, word, w)
    ensures Do(x, Plain(Case((), subject, l)), depth, st)
            == Ended(Normal, 0, st.(w := x.env.oracle.subject(subject, st.last, st.w).1, last := 0))
  {
    var (word, w) := x.env.oracle.subject(subject, st.last, st.w);
    NodeSettles(x, Case((), subject, l), depth, st);
    hide Exec, ExecCase;
    NoClauseFits(x, word, l, depth, 0, st.(w := w));
  }

  // ---------- functions ----------

  /** `return` leaves all loops of a function, whatever follows it. */
  lemma {:induction false} ReturnLaw<W>(x: Setting<W>, fs: seq<Frame>, words: nat, depth: nat, st: State<W>, s: int,
        w: W, next: Cmd)
    requires x.inFn && Reach(x, fs, depth, st).Some?
    requires var r := Reach(x, fs, depth, st).value; x.env.oracle.act(words, r.last, r.w) == Return(s, w)
    ensures Do(x, Then(Nest(fs, Builtin(words)), next), depth, st)
            == Returned(s, Reach(x, fs, depth, st).value.(w := w))
  {
    hide Enter, LoopOf;
    NestReturns(x, fs, words, depth, st, s, w);
    ThenRuns(x, Nest(fs, Builtin(words)), next, depth, st);
    hide Exec;
  }

  lemma {:induction false} NestReturns<W>(x: Setting<W>, fs: seq<Frame>, words: nat, depth: nat, st: State<W>, s: int,
        w: W)
    requires x.inFn && Reach(x, fs, depth, st).Some?
    requires var r := Reach(x, fs, depth, st).value; x.env.oracle.act(words, r.last, r.w) == Return(s, w)
    ensures Do(x, Nest(fs, Builtin(words)), depth, st) == Returned(s, Reach(x, fs, depth, st).value.(w := w))
    decreases |fs|
  {
    if fs == [] {
      var node := Simple((), words);
      assert ExecSimple(x.env, x.fuel, node, x.ignore, depth, x.inFn, st) == Returned(s, st.(w := w));
      NodeSettles(x, node, depth, st);
    } else {
      hide Exec;
      var inner, st1 := Nest(fs[1..], Builtin(words)), TurnBegins(x, fs[0], depth, st).value;
      NestReturns(x, fs[1..], words, depth + 1, Enter(x, fs[0], depth, st).value, s, w);
      ThenRuns(x, inner, fs[0].after, depth + 1, Do(x, fs[0].before, depth + 1, st1).st);
      ThenRuns(x, fs[0].before, Then(inner, fs[0].after), depth + 1, st1);
      LoopReturns(x, fs[0], BodyOf(fs[0], inner), depth, st);
    }
  }

  lemma LoopReturns<W>(x: Setting<W>, f: Frame, body: Cmd, depth: nat, st: State<W>)
    requires TurnBegins(x, f, depth, st).Some?
    requires Do(x, body, depth + 1, TurnBegins(x, f, depth, st).value).Returned?
    ensures Do(x, Plain(LoopNode(f, body)), depth, st) == Do(x, body, depth + 1, TurnBegins(x, f, depth, st).value)
  {
    var n := LoopNode(f, body);
    NodeSettles(x, n, depth, st);
    if f.ForFrame? {
      var (list, w) := x.env.oracle.expand(f.words, st.last, st.w);
      assert ExecNode(x.env, x.fuel, n, x.ignore, depth, x.inFn, st)
          == ExecFor(x.env, x.fuel, f.name, list, body, x.ignore, depth + 1, x.inFn, 0, st.(w := w));
    } else {
      assert ExecNode(x.env, x.fuel, n, x.ignore, depth, x.inFn, st)
          == ExecWhile(x.env, x.fuel, n, x.ignore, depth, x.inFn, 0, st);
    }
    hide Exec;
  }

  /** A function's body is run outside the loops of its caller, which its `break` does not reach; the call has the
      status that the body ends with or returns. */
  lemma FunctionLaw<W>(x: Setting<W>, words: nat, name: string, depth: nat, st: State<W>, w: W)
    requires x.ignore && x.fuel > 0 && name in st.functions && x.env.oracle.act(words, st.last, st.w) == Call(name, w)
    ensures var body := Exec(x.env, x.fuel - 1, st.functions[name], true, 0, true, st.(w := w));
            var r := Do(x, Builtin(words), depth, st);
            if body.Ended? || body.Returned?
            then r == Ended(Normal, body.status, body.st.(w := x.env.oracle.leave(body.st.w), last := body.status))
            else r == body
  {
    var node := Simple((), words);
    assert ExecSimple(x.env, x.fuel, node, x.ignore, depth, x.inFn, st)
        == Called(x.env, Exec(x.env, x.fuel - 1, st.functions[name], true, 0, true, st.(w := w)));
    NodeSettles(x, node, depth, st);
    hide Exec;
  }

  /** A definition stores the body, and does not run it; a name that is none fails. */
  lemma DefinitionLaw<W>(x: Setting<W>, name: string, body: Cmd, depth: nat, st: State<W>)
    requires x.ignore
    ensures Do(x, Plain(FunctionDef(name, body)), depth, st)
            == if x.env.oracle.identifier(name)
               then Ended(Normal, 0, st.(functions := st.functions[name := body], last := 0))
               else Ended(Normal, 1, st.(last := 1))
  {
    NodeSettles(x, FunctionDef(name, body), depth, st);
    hide Exec;
  }

  /** A command that is not found has status 127, and a `return` outside of functions status 2. */
  lemma MisuseLaw<W>(x: Setting<W>, words: nat, depth: nat, st: State<W>, name: string, s: int, w: W)
    requires x.ignore
    ensures x.env.oracle.act(words, st.last, st.w) == Call(name, w) && name !in st.functions ==>
              Do(x, Builtin(words), depth, st) == Ended(Normal, 127, st.(w := w, last := 127))
    ensures x.env.oracle.act(words, st.last, st.w) == Return(s, w) && !x.inFn ==>
              Do(x, Builtin(words), depth, st) == Ended(Normal, 2, st.(w := w, last := 2))
  {
    NodeSettles(x, Simple((), words), depth, st);
    hide Exec;
  }
}
