/** Commands of the shell, and what running them means: loops left by `break` and `continue`, functions
    left by `return`, and the shell left by a failure under `set -e`. Nothing here has counters, flags
    or jumps. */
module ControlSemantics {
  import opened Wrappers

  const EXECUTION_SUCCESS := 0
  const EXECUTION_FAILURE := 1
  const EX_BADUSAGE := 2
  const EX_NOTFOUND := 127

  // ---------- commands ----------

  /** A command. F is what stands for its flags; words, patterns and the like are known by number. */
  datatype Command<F> =
    | Null
    | Command(flags: F, invert: bool, node: Node<F>)

  datatype Node<F> =
    | Simple(inner: F, words: nat)
    | FunctionDef(name: string, body: Command<F>)
    | Group(body: Command<F>)
    | List(first: Command<F>, second: Command<F>)
    | AndOr(and: bool, first: Command<F>, second: Command<F>)
    | If(inner: F, test: Command<F>, yes: Command<F>, no: Command<F>)
    | While(inner: F, until: bool, test: Command<F>, action: Command<F>)
    | For(inner: F, name: string, words: nat, action: Command<F>)
    | Case(inner: F, subject: nat, clauses: Clauses<F>)

  datatype Clauses<F> =
    | NoClause
    | Clause(patterns: seq<nat>, action: Command<F>, after: After, rest: Clauses<F>)

  /** `;;`, `;&` and `;;&` */
  datatype After = Stop | FallThrough | TestNext

  // ---------- what a command meets ----------

  /** What a simple command does, after the expansion of its words. */
  datatype Action<W> =
    | Done(status: int, w: W)
    | BreakLoop(n: int, w: W)
    | ContinueLoop(n: int, w: W)
    | Call(function_name: string, w: W)
    | Return(status: int, w: W)

  /** The parts of the shell that are not modelled: how simple commands act, given `$?` and everything
      else there is; variables; words and patterns. `leave` is what the end of a function call does. */
  datatype Oracle<!W> = Oracle(
    act: (nat, int, W) -> Action<W>,
    identifier: string -> bool,
    bind: (string, string, W) -> Option<W>,
    expand: (nat, int, W) -> (seq<string>, W),
    subject: (nat, int, W) -> (string, W),
    matches: (nat, string, W) -> bool,
    leave: W -> W)

  /** The oracle and the option `-e`. */
  datatype Env<!W> = Env(oracle: Oracle<W>, errexit: bool)

  /** `$?`, the functions, and everything else. Without `set -e`, `failures` collects the statuses at which
      it would have left the shell. */
  datatype State<W> = State(last: int, functions: map<string, Command<()>>, w: W, failures: seq<int>)

  // ---------- outcomes ----------

  datatype Signal = Normal | Break(n: nat) | Continue(n: nat)

  datatype Outcome<W> =
    | Ended(signal: Signal, status: int, st: State<W>)
    | Exited(st: State<W>)
    | Returned(status: int, st: State<W>)
    | OutOfFuel

  /** How a loop ends after a signal from its body; Normal when it goes on. */
  datatype LoopStep = GoOn | Leave(signal: Signal)

  function AfterBody(signal: Signal): LoopStep {
    match signal
    case Normal => GoOn
    case Break(n) => Leave(if n > 1 then Break(n - 1) else Normal)
    case Continue(n) => if n > 1 then Leave(Continue(n - 1)) else GoOn
  }

  /** What remains of a signal that came from the test that ends the loop. */
  function AfterTest(signal: Signal): Signal {
    match signal
    case Normal => Normal
    case Break(n) => if n > 1 then Break(n - 1) else Normal
    case Continue(n) => if n > 1 then Continue(n - 1) else Normal
  }

  function Min(a: int, b: int): int {
    if a < b then a else b
  }

  // ---------- running ----------

  /** What holds of every outcome: a signal is for one of the loops around, only a function is returned
      from, and the shell is left only under `set -e` and not where failures are ignored. */
  predicate Sane<W>(env: Env<W>, ignore: bool, depth: int, inFn: bool, st: State<W>, o: Outcome<W>) {
    && (o.Ended? && !o.signal.Normal? ==> 1 <= o.signal.n <= depth)
    && (o.Returned? ==> inFn)
    && (o.Exited? ==> env.errexit && !ignore)
    && (!o.OutOfFuel? ==> st.failures <= o.st.failures && (env.errexit ==> o.st.failures == st.failures))
  }

  /** Running c with `$?` and the rest in st. With `ignore` its failure does not leave the shell; depth is
      the number of loops around it in the present function, and inFn tells whether there is one. Every
      call of a function and every turn of a while loop takes one from fuel. */
  function Exec<W>(env: Env<W>, fuel: nat, c: Command<()>, ignore: bool, depth: nat, inFn: bool,
        st: State<W>): (o: Outcome<W>)
    ensures Sane(env, ignore, depth, inFn, st, o)
    ensures o.Ended? && !c.Null? ==> o.st.last == o.status
    decreases fuel, c, 0
  {
    if c.Null? then Ended(Normal, EXECUTION_SUCCESS, st)
    else
      match ExecNode(env, fuel, c.node, ignore || c.invert, depth, inFn, st)
      case Ended(signal, status, st') => var s := Inverted(c.invert, status); Ended(signal, s, st'.(last := s))
      case o => o
  }

  function Inverted(invert: bool, status: int): int {
    if !invert then status else if status == EXECUTION_SUCCESS then EXECUTION_FAILURE else EXECUTION_SUCCESS
  }

  function ExecNode<W>(env: Env<W>, fuel: nat, n: Node<()>, ignore: bool, depth: nat, inFn: bool,
        st: State<W>): (o: Outcome<W>)
    ensures Sane(env, ignore, depth, inFn, st, o)
    decreases fuel, n, 1
  {
    match n
    case Simple(_, _) => Checked(env, ignore, ExecSimple(env, fuel, n, ignore, depth, inFn, st))
    case FunctionDef(name, body) => Checked(env, ignore, Define(env, name, body, st))
    case Group(body) => Exec(env, fuel, body, ignore, depth, inFn, st)
    case List(first, second) =>
      var o := Exec(env, fuel, first, ignore, depth, inFn, st);
      if o.Ended? && o.signal.Normal? then Exec(env, fuel, second, ignore, depth, inFn, o.st) else o
    case AndOr(and, first, second) =>
      var o := Exec(env, fuel, first, true, depth, inFn, st);
      if o.Ended? && o.signal.Normal? && (o.status == EXECUTION_SUCCESS) == and
      then Exec(env, fuel, second, ignore, depth, inFn, o.st) else o
    case If(_, test, yes, no) =>
      var o := Exec(env, fuel, test, true, depth, inFn, st);
      if o.Ended? && o.signal.Normal?
      then Exec(env, fuel, if o.status == EXECUTION_SUCCESS then yes else no, ignore, depth, inFn, o.st) else o
    case While(_, _, _, _) => ExecWhile(env, fuel, n, ignore, depth, inFn, EXECUTION_SUCCESS, st)
    case For(_, name, words, action) =>
      if !env.oracle.identifier(name) then Ended(Normal, EXECUTION_FAILURE, st)
      else
        var (list, w) := env.oracle.expand(words, st.last, st.w);
        ExecFor(env, fuel, name, list, action, ignore, depth + 1, inFn, EXECUTION_SUCCESS, st.(w := w))
    case Case(_, subject, clauses) =>
      var (word, w) := env.oracle.subject(subject, st.last, st.w);
      ExecCase(env, fuel, word, clauses, ignore, depth, inFn, EXECUTION_SUCCESS, st.(w := w))
  }

  /** The failure of a command that is not ignored leaves the shell under `set -e`. */
  function Checked<W>(env: Env<W>, ignore: bool, o: Outcome<W>): Outcome<W> {
    if !o.Ended? || ignore || o.status == EXECUTION_SUCCESS then o
    else if env.errexit then Exited(o.st.(last := o.status))
    else Ended(o.signal, o.status, o.st.(failures := o.st.failures + [o.status]))
  }

  function Define<W>(env: Env<W>, name: string, body: Command<()>, st: State<W>): Outcome<W> {
    if !env.oracle.identifier(name) then Ended(Normal, EXECUTION_FAILURE, st)
    else Ended(Normal, EXECUTION_SUCCESS, st.(functions := st.functions[name := body]))
  }

  function ExecSimple<W>(env: Env<W>, fuel: nat, n: Node<()>, ignore: bool, depth: nat, inFn: bool,
        st: State<W>): (o: Outcome<W>)
    requires n.Simple?
    ensures Sane(env, ignore, depth, inFn, st, o)
    decreases fuel, n, 0
  {
    match env.oracle.act(n.words, st.last, st.w)
    case Done(status, w) => Ended(Normal, status, st.(w := w))
    case BreakLoop(n, w) =>
      if depth == 0 then Ended(Normal, EXECUTION_SUCCESS, st.(w := w))
      else if n <= 0 then Ended(Break(depth), EXECUTION_FAILURE, st.(w := w))
      else Ended(Break(Min(n, depth)), EXECUTION_SUCCESS, st.(w := w))
    case ContinueLoop(n, w) =>
      if depth == 0 then Ended(Normal, EXECUTION_SUCCESS, st.(w := w))
      else if n <= 0 then Ended(Break(depth), EXECUTION_FAILURE, st.(w := w))
      else Ended(Continue(Min(n, depth)), EXECUTION_SUCCESS, st.(w := w))
    case Return(status, w) =>
      if inFn then Returned(status, st.(w := w)) else Ended(Normal, EX_BADUSAGE, st.(w := w))
    case Call(name, w) =>
      if name !in st.functions then Ended(Normal, EX_NOTFOUND, st.(w := w))
      else if fuel == 0 then OutOfFuel
      else Called(env, Exec(env, fuel - 1, st.functions[name], ignore, 0, true, st.(w := w)))
  }

  /** The end of a function call. */
  function Called<W>(env: Env<W>, o: Outcome<W>): Outcome<W> {
    match o
    case Ended(_, status, st) => Ended(Normal, status, st.(w := env.oracle.leave(st.w)))
    case Returned(status, st) => Ended(Normal, status, st.(w := env.oracle.leave(st.w)))
    case _ => o
  }

  /** The turns of a while or until loop from its test on; retval is the status of the last body. */
  function ExecWhile<W>(env: Env<W>, fuel: nat, n: Node<()>, ignore: bool, depth: nat, inFn: bool, retval: int,
        st: State<W>): (o: Outcome<W>)
    requires n.While?
    ensures Sane(env, ignore, depth, inFn, st, o)
    decreases fuel, n, 0
  {
    var o := Exec(env, fuel, n.test, true, depth + 1, inFn, st);
    if !o.Ended? then o
    else if (o.status == EXECUTION_SUCCESS) == n.until then Ended(AfterTest(o.signal), retval, o.st)
    else
      var b := if o.signal.Normal? then Exec(env, fuel, n.action, ignore, depth + 1, inFn, o.st) else o;
      if !b.Ended? then b
      else
        match AfterBody(b.signal)
        case Leave(signal) => Ended(signal, b.status, b.st)
        case GoOn => if fuel == 0 then OutOfFuel else ExecWhile(env, fuel - 1, n, ignore, depth, inFn, b.status, b.st)
  }

  /** The turns of a for loop over the words that are left; depth counts this loop. */
  function ExecFor<W>(env: Env<W>, fuel: nat, name: string, list: seq<string>, action: Command<()>, ignore: bool,
        depth: nat, inFn: bool, retval: int, st: State<W>): (o: Outcome<W>)
    requires depth > 0
    ensures Sane(env, ignore, depth - 1, inFn, st, o)
    decreases fuel, action, |list| + 1
  {
    if list == [] then Ended(Normal, retval, st)
    else
      match env.oracle.bind(name, list[0], st.w)
      case None => Ended(Normal, EXECUTION_FAILURE, st)
      case Some(w) =>
        var b := Exec(env, fuel, action, ignore, depth, inFn, st.(w := w));
        if !b.Ended? then b
        else
          match AfterBody(b.signal)
          case Leave(signal) => Ended(signal, b.status, b.st)
          case GoOn => ExecFor(env, fuel, name, list[1..], action, ignore, depth, inFn, b.status, b.st)
  }

  predicate AnyMatches<W>(env: Env<W>, patterns: seq<nat>, word: string, w: W) {
    exists k :: 0 <= k < |patterns| && env.oracle.matches(patterns[k], word, w)
  }

  /** The clauses of a case command that are left to be tested. */
  function ExecCase<W>(env: Env<W>, fuel: nat, word: string, clauses: Clauses<()>, ignore: bool, depth: nat,
        inFn: bool, retval: int, st: State<W>): (o: Outcome<W>)
    ensures Sane(env, ignore, depth, inFn, st, o)
    decreases fuel, clauses, 1
  {
    if clauses.NoClause? then Ended(Normal, retval, st)
    else if AnyMatches(env, clauses.patterns, word, st.w)
        then ExecActions(env, fuel, word, clauses, ignore, depth, inFn, st)
    else ExecCase(env, fuel, word, clauses.rest, ignore, depth, inFn, retval, st)
  }

  /** The actions from a clause that matched on. */
  function ExecActions<W>(env: Env<W>, fuel: nat, word: string, clauses: Clauses<()>, ignore: bool, depth: nat,
        inFn: bool, st: State<W>): (o: Outcome<W>)
    requires clauses.Clause?
    ensures Sane(env, ignore, depth, inFn, st, o)
    decreases fuel, clauses, 0
  {
    var o := Exec(env, fuel, clauses.action, ignore, depth, inFn, st);
    if !o.Ended? || !o.signal.Normal? then o
    else
      match clauses.after
      case Stop => o
      case TestNext => ExecCase(env, fuel, word, clauses.rest, ignore, depth, inFn, o.status, o.st)
      case FallThrough => if clauses.rest.NoClause? then o
          else ExecActions(env, fuel, word, clauses.rest, ignore, depth, inFn, o.st)
  }

  // ---------- continue in the test of a loop ----------

  /** After a `continue` from its test a loop goes on to another turn if and only if the signal is for this loop
      alone and the test's status does not end it; otherwise it ends, and what is left of the signal goes to the
      loop around. */
  lemma ContinueFromTest<W>(env: Env<W>, fuel: nat, n: Node<()>, ignore: bool, depth: nat, inFn: bool, retval: int,
        st: State<W>)
    requires n.While?
    requires var o := Exec(env, fuel, n.test, true, depth + 1, inFn, st); o.Ended? && o.signal.Continue?
    ensures var o := Exec(env, fuel, n.test, true, depth + 1, inFn, st);
            var ends := (o.status == EXECUTION_SUCCESS) == n.until;
            var again := o.signal.n == 1 && !ends;
            var result := ExecWhile(env, fuel, n, ignore, depth, inFn, retval, st);
            && (again && fuel > 0 ==> result == ExecWhile(env, fuel - 1, n, ignore, depth, inFn, o.status, o.st))
            && (!again ==> result == Ended(AfterTest(o.signal), if ends then retval else o.status, o.st))
            && (fuel == 0 ==> (again <==> result.OutOfFuel?))
  {
    assert 1 <= Exec(env, fuel, n.test, true, depth + 1, inFn, st).signal.n;
  }

  /** The node whose test is the builtin `continue`, or its negation. */
  function LoopOnContinue(until: bool, invert: bool, words: nat, action: Command<()>): Node<()> {
    While((), until, Command((), invert, Simple((), words)), action)
  }

  lemma RunContinue<W>(env: Env<W>, fuel: nat, invert: bool, words: nat, depth: nat, inFn: bool, st: State<W>)
    requires var a := env.oracle.act(words, st.last, st.w); a.ContinueLoop? && a.n > 0 && depth > 0
    ensures var a := env.oracle.act(words, st.last, st.w);
            var status := if invert then EXECUTION_FAILURE else EXECUTION_SUCCESS;
            Exec(env, fuel, Command((), invert, Simple((), words)), true, depth, inFn, st)
            == Ended(Continue(Min(a.n, depth)), status, st.(w := a.w, last := status))
  {
    var a, n := env.oracle.act(words, st.last, st.w), Simple((), words);
    assert ExecSimple(env, fuel, n, true, depth, inFn, st)
        == Ended(Continue(Min(a.n, depth)), EXECUTION_SUCCESS, st.(w := a.w));
    assert ExecNode(env, fuel, n, true, depth, inFn, st)
        == Ended(Continue(Min(a.n, depth)), EXECUTION_SUCCESS, st.(w := a.w));
  }

  /** For the builtin itself: `while continue` and `until ! continue` go on, `until continue` and
      `while ! continue` end; a larger count also leaves loops around, if there are any. */
  lemma ContinueAsTest<W>(env: Env<W>, fuel: nat, until: bool, invert: bool, words: nat, action: Command<()>,
        ignore: bool, depth: nat, inFn: bool, retval: int, st: State<W>)
    requires var a := env.oracle.act(words, st.last, st.w); a.ContinueLoop? && a.n > 0
    ensures var a := env.oracle.act(words, st.last, st.w);
            var n, count := LoopOnContinue(until, invert, words, action), Min(a.n, depth + 1);
            var result := ExecWhile(env, fuel, n, ignore, depth, inFn, retval, st);
            var status := if invert then EXECUTION_FAILURE else EXECUTION_SUCCESS;
            var after := st.(w := a.w, last := status);
            if count == 1 && until == invert
            then result == if fuel == 0 then OutOfFuel
                else ExecWhile(env, fuel - 1, n, ignore, depth, inFn, status, after)
            else result == Ended(if count > 1 then Continue(count - 1) else Normal, if until != invert then retval
                else status, after)
  {
    var n := LoopOnContinue(until, invert, words, action);
    RunContinue(env, fuel, invert, words, depth + 1, inFn, st);
    hide Exec;
    ContinueFromTest(env, fuel, n, ignore, depth, inFn, retval, st);
  }

  /** `until continue` ends at once; `while continue` never does. */
  lemma {:induction false} UntilContinueEnds<W(!new)>(env: Env<W>, fuel: nat, words: nat, action: Command<()>,
        ignore: bool, inFn: bool, retval: int, st: State<W>)
    requires forall last: int, w: W {:trigger env.oracle.act(words, last, w)} ::
             env.oracle.act(words, last, w) == ContinueLoop(1, w)
    ensures ExecWhile(env, fuel, LoopOnContinue(true, false, words, action), ignore, 0, inFn, retval, st).Ended?
    ensures ExecWhile(env, fuel, LoopOnContinue(false, false, words, action), ignore, 0, inFn, retval, st).OutOfFuel?
    decreases fuel
  {
    assert env.oracle.act(words, st.last, st.w) == ContinueLoop(1, st.w);
    ContinueAsTest(env, fuel, true, false, words, action, ignore, 0, inFn, retval, st);
    ContinueAsTest(env, fuel, false, false, words, action, ignore, 0, inFn, retval, st);
    if fuel > 0 {
      UntilContinueEnds(env, fuel - 1, words, action, ignore, inFn, EXECUTION_SUCCESS,
          st.(w := st.w, last := EXECUTION_SUCCESS));
    }
  }

  // ---------- set -e ----------

  /** The run `on` with `set -e` does what `off` does without it, up to the first failure that counts. */
  ghost predicate StopsAtFirst<W>(on: Outcome<W>, off: Outcome<W>) {
    if on.Exited? then off.OutOfFuel? || on.st.failures + [on.st.last] <= off.st.failures else off == on
  }

  function On<W>(oracle: Oracle<W>): Env<W> {
    Env(oracle, true)
  }

  function Off<W>(oracle: Oracle<W>): Env<W> {
    Env(oracle, false)
  }

  /** The jump out of the shell is taken at the first failure of a command that is not in a test, not the
      first operand of && or ||, and not negated; nothing before it differs from a run without `-e`. */
  lemma {:induction false} ErrexitStops<W>(oracle: Oracle<W>, fuel: nat, c: Command<()>, ignore: bool, depth: nat,
        inFn: bool, st: State<W>)
    ensures StopsAtFirst(Exec(On(oracle), fuel, c, ignore, depth, inFn, st),
            Exec(Off(oracle), fuel, c, ignore, depth, inFn, st))
    decreases fuel, c, 0
  {
    if c.Command? {
      NodeStops(oracle, fuel, c.node, ignore || c.invert, depth, inFn, st);
    }
  }

  lemma {:induction false} NodeStops<W>(oracle: Oracle<W>, fuel: nat, n: Node<()>, ignore: bool, depth: nat,
        inFn: bool, st: State<W>)
    ensures StopsAtFirst(ExecNode(On(oracle), fuel, n, ignore, depth, inFn, st),
            ExecNode(Off(oracle), fuel, n, ignore, depth, inFn, st))
    decreases fuel, n, 1
  {
    match n
    case Simple(_, _) => SimpleStops(oracle, fuel, n, ignore, depth, inFn, st);
    case FunctionDef(_, _) =>
    case Group(body) => ErrexitStops(oracle, fuel, body, ignore, depth, inFn, st);
    case List(first, second) =>
      ErrexitStops(oracle, fuel, first, ignore, depth, inFn, st);
      var o := Exec(On(oracle), fuel, first, ignore, depth, inFn, st);
      if o.Ended? {
        ErrexitStops(oracle, fuel, second, ignore, depth, inFn, o.st);
      }
    case AndOr(_, first, second) =>
      ErrexitStops(oracle, fuel, first, true, depth, inFn, st);
      var o := Exec(On(oracle), fuel, first, true, depth, inFn, st);
      if o.Ended? {
        ErrexitStops(oracle, fuel, second, ignore, depth, inFn, o.st);
      }
    case If(_, test, yes, no) =>
      ErrexitStops(oracle, fuel, test, true, depth, inFn, st);
      var o := Exec(On(oracle), fuel, test, true, depth, inFn, st);
      if o.Ended? {
        ErrexitStops(oracle, fuel, if o.status == EXECUTION_SUCCESS then yes else no, ignore, depth, inFn, o.st);
      }
    case While(_, _, _, _) => WhileStops(oracle, fuel, n, ignore, depth, inFn, EXECUTION_SUCCESS, st);
    case For(_, name, words, action) =>
      var (list, w) := oracle.expand(words, st.last, st.w);
      ForStops(oracle, fuel, name, list, action, ignore, depth + 1, inFn, EXECUTION_SUCCESS, st.(w := w));
    case Case(_, subject, clauses) =>
      var (word, w) := oracle.subject(subject, st.last, st.w);
      CaseStops(oracle, fuel, word, clauses, ignore, depth, inFn, EXECUTION_SUCCESS, st.(w := w));
  }

  lemma {:induction false} SimpleStops<W>(oracle: Oracle<W>, fuel: nat, n: Node<()>, ignore: bool, depth: nat,
        inFn: bool, st: State<W>)
    requires n.Simple?
    ensures StopsAtFirst(ExecNode(On(oracle), fuel, n, ignore, depth, inFn, st),
            ExecNode(Off(oracle), fuel, n, ignore, depth, inFn, st))
    decreases fuel, n, 0
  {
    var a := oracle.act(n.words, st.last, st.w);
    if a.Call? && a.function_name in st.functions && fuel > 0 {
      ErrexitStops(oracle, fuel - 1, st.functions[a.function_name], ignore, 0, true, st.(w := a.w));
    }
  }

  lemma {:induction false} WhileStops<W>(oracle: Oracle<W>, fuel: nat, n: Node<()>, ignore: bool, depth: nat,
        inFn: bool, retval: int, st: State<W>)
    requires n.While?
    ensures StopsAtFirst(ExecWhile(On(oracle), fuel, n, ignore, depth, inFn, retval, st),
            ExecWhile(Off(oracle), fuel, n, ignore, depth, inFn, retval, st))
    decreases fuel, n, 0
  {
    ErrexitStops(oracle, fuel, n.test, true, depth + 1, inFn, st);
    var o := Exec(On(oracle), fuel, n.test, true, depth + 1, inFn, st);
    if o.Ended? {
      var b := o;
      if o.signal.Normal? {
        ErrexitStops(oracle, fuel, n.action, ignore, depth + 1, inFn, o.st);
        b := Exec(On(oracle), fuel, n.action, ignore, depth + 1, inFn, o.st);
      }
      if b.Ended? && fuel > 0 {
        WhileStops(oracle, fuel - 1, n, ignore, depth, inFn, b.status, b.st);
      }
    }
  }

  lemma {:induction false} ForStops<W>(oracle: Oracle<W>, fuel: nat, name: string, list: seq<string>,
        action: Command<()>, ignore: bool, depth: nat, inFn: bool, retval: int, st: State<W>)
    requires depth > 0
    ensures StopsAtFirst(ExecFor(On(oracle), fuel, name, list, action, ignore, depth, inFn, retval, st),
                         ExecFor(Off(oracle), fuel, name, list, action, ignore, depth, inFn, retval, st))
    decreases fuel, action, |list| + 1
  {
    if list != [] {
      var w := oracle.bind(name, list[0], st.w);
      if w.Some? {
        ErrexitStops(oracle, fuel, action, ignore, depth, inFn, st.(w := w.value));
        var b := Exec(On(oracle), fuel, action, ignore, depth, inFn, st.(w := w.value));
        if b.Ended? {
          ForStops(oracle, fuel, name, list[1..], action, ignore, depth, inFn, b.status, b.st);
        }
      }
    }
  }

  lemma {:induction false} CaseStops<W>(oracle: Oracle<W>, fuel: nat, word: string, clauses: Clauses<()>,
        ignore: bool, depth: nat, inFn: bool, retval: int, st: State<W>)
    ensures StopsAtFirst(ExecCase(On(oracle), fuel, word, clauses, ignore, depth, inFn, retval, st),
                         ExecCase(Off(oracle), fuel, word, clauses, ignore, depth, inFn, retval, st))
    decreases fuel, clauses, 1
  {
    if clauses.Clause? {
      if AnyMatches(On(oracle), clauses.patterns, word, st.w) {
        ActionsStop(oracle, fuel, word, clauses, ignore, depth, inFn, st);
      } else {
        CaseStops(oracle, fuel, word, clauses.rest, ignore, depth, inFn, retval, st);
      }
    }
  }

  lemma {:induction false} ActionsStop<W>(oracle: Oracle<W>, fuel: nat, word: string, clauses: Clauses<()>,
        ignore: bool, depth: nat, inFn: bool, st: State<W>)
    requires clauses.Clause?
    ensures StopsAtFirst(ExecActions(On(oracle), fuel, word, clauses, ignore, depth, inFn, st),
                         ExecActions(Off(oracle), fuel, word, clauses, ignore, depth, inFn, st))
    decreases fuel, clauses, 0
  {
    ErrexitStops(oracle, fuel, clauses.action, ignore, depth, inFn, st);
    var o := Exec(On(oracle), fuel, clauses.action, ignore, depth, inFn, st);
    if o.Ended? && o.signal.Normal? {
      if clauses.after.TestNext? {
        CaseStops(oracle, fuel, word, clauses.rest, ignore, depth, inFn, o.status, o.st);
      } else if clauses.after.FallThrough? && clauses.rest.Clause? {
        ActionsStop(oracle, fuel, word, clauses.rest, ignore, depth, inFn, o.st);
      }
    }
  }

  /** Under `set -e` a run leaves the shell if and only if, without it, a failure counts. */
  lemma ExitsExactly<W>(oracle: Oracle<W>, fuel: nat, c: Command<()>, ignore: bool, depth: nat, inFn: bool,
        st: State<W>)
    requires !Exec(Off(oracle), fuel, c, ignore, depth, inFn, st).OutOfFuel?
    ensures var off := Exec(Off(oracle), fuel, c, ignore, depth, inFn, st);
            var on := Exec(On(oracle), fuel, c, ignore, depth, inFn, st);
            && (on.Exited? <==> off.st.failures != st.failures)
            && (on.Exited? ==> on.st.last == off.st.failures[|st.failures|])
            && (!on.Exited? ==> on == off)
  {
    ErrexitStops(oracle, fuel, c, ignore, depth, inFn, st);
  }

  // ---------- fuel ----------

  ghost predicate Enough<W>(o: Outcome<W>, more: Outcome<W>) {
    o.OutOfFuel? || more == o
  }

  /** Once a run ends, more fuel changes nothing. */
  lemma {:induction false} MoreFuel<W>(env: Env<W>, fuel: nat, c: Command<()>, ignore: bool, depth: nat, inFn: bool,
        st: State<W>)
    ensures Enough(Exec(env, fuel, c, ignore, depth, inFn, st), Exec(env, fuel + 1, c, ignore, depth, inFn, st))
    decreases fuel, c, 0
  {
    if c.Command? {
      NodeFuel(env, fuel, c.node, ignore || c.invert, depth, inFn, st);
    }
  }

  lemma {:induction false} NodeFuel<W>(env: Env<W>, fuel: nat, n: Node<()>, ignore: bool, depth: nat, inFn: bool,
        st: State<W>)
    ensures Enough(ExecNode(env, fuel, n, ignore, depth, inFn, st), ExecNode(env, fuel + 1, n, ignore, depth, inFn, st))
    decreases fuel, n, 1
  {
    match n
    case Simple(_, _) => SimpleFuel(env, fuel, n, ignore, depth, inFn, st);
    case FunctionDef(_, _) =>
    case Group(body) => MoreFuel(env, fuel, body, ignore, depth, inFn, st);
    case List(first, second) =>
      MoreFuel(env, fuel, first, ignore, depth, inFn, st);
      var o := Exec(env, fuel, first, ignore, depth, inFn, st);
      if o.Ended? {
        MoreFuel(env, fuel, second, ignore, depth, inFn, o.st);
      }
    case AndOr(_, first, second) =>
      MoreFuel(env, fuel, first, true, depth, inFn, st);
      var o := Exec(env, fuel, first, true, depth, inFn, st);
      if o.Ended? {
        MoreFuel(env, fuel, second, ignore, depth, inFn, o.st);
      }
    case If(_, test, yes, no) =>
      MoreFuel(env, fuel, test, true, depth, inFn, st);
      var o := Exec(env, fuel, test, true, depth, inFn, st);
      if o.Ended? {
        MoreFuel(env, fuel, if o.status == EXECUTION_SUCCESS then yes else no, ignore, depth, inFn, o.st);
      }
    case While(_, _, _, _) => WhileFuel(env, fuel, n, ignore, depth, inFn, EXECUTION_SUCCESS, st);
    case For(_, name, words, action) =>
      var (list, w) := env.oracle.expand(words, st.last, st.w);
      ForFuel(env, fuel, name, list, action, ignore, depth + 1, inFn, EXECUTION_SUCCESS, st.(w := w));
    case Case(_, subject, clauses) =>
      var (word, w) := env.oracle.subject(subject, st.last, st.w);
      CaseFuel(env, fuel, word, clauses, ignore, depth, inFn, EXECUTION_SUCCESS, st.(w := w));
  }

  lemma {:induction false} SimpleFuel<W>(env: Env<W>, fuel: nat, n: Node<()>, ignore: bool, depth: nat, inFn: bool,
        st: State<W>)
    requires n.Simple?
    ensures Enough(ExecNode(env, fuel, n, ignore, depth, inFn, st), ExecNode(env, fuel + 1, n, ignore, depth, inFn, st))
    decreases fuel, n, 0
  {
    var a := env.oracle.act(n.words, st.last, st.w);
    if a.Call? && a.function_name in st.functions && fuel > 0 {
      MoreFuel(env, fuel - 1, st.functions[a.function_name], ignore, 0, true, st.(w := a.w));
    }
  }

  lemma {:induction false} WhileFuel<W>(env: Env<W>, fuel: nat, n: Node<()>, ignore: bool, depth: nat, inFn: bool,
        retval: int, st: State<W>)
    requires n.While?
    ensures Enough(ExecWhile(env, fuel, n, ignore, depth, inFn, retval, st),
            ExecWhile(env, fuel + 1, n, ignore, depth, inFn, retval, st))
    decreases fuel, n, 0
  {
    MoreFuel(env, fuel, n.test, true, depth + 1, inFn, st);
    var o := Exec(env, fuel, n.test, true, depth + 1, inFn, st);
    if o.Ended? {
      var b := o;
      if o.signal.Normal? {
        MoreFuel(env, fuel, n.action, ignore, depth + 1, inFn, o.st);
        b := Exec(env, fuel, n.action, ignore, depth + 1, inFn, o.st);
      }
      if b.Ended? && fuel > 0 {
        WhileFuel(env, fuel - 1, n, ignore, depth, inFn, b.status, b.st);
      }
    }
  }

  lemma {:induction false} ForFuel<W>(env: Env<W>, fuel: nat, name: string, list: seq<string>, action: Command<()>,
        ignore: bool, depth: nat, inFn: bool, retval: int, st: State<W>)
    requires depth > 0
    ensures Enough(ExecFor(env, fuel, name, list, action, ignore, depth, inFn, retval, st),
            ExecFor(env, fuel + 1, name, list, action, ignore, depth, inFn, retval, st))
    decreases fuel, action, |list| + 1
  {
    if list != [] {
      var w := env.oracle.bind(name, list[0], st.w);
      if w.Some? {
        MoreFuel(env, fuel, action, ignore, depth, inFn, st.(w := w.value));
        var b := Exec(env, fuel, action, ignore, depth, inFn, st.(w := w.value));
        if b.Ended? {
          ForFuel(env, fuel, name, list[1..], action, ignore, depth, inFn, b.status, b.st);
        }
      }
    }
  }

  lemma {:induction false} CaseFuel<W>(env: Env<W>, fuel: nat, word: string, clauses: Clauses<()>, ignore: bool,
        depth: nat, inFn: bool, retval: int, st: State<W>)
    ensures Enough(ExecCase(env, fuel, word, clauses, ignore, depth, inFn, retval, st),
            ExecCase(env, fuel + 1, word, clauses, ignore, depth, inFn, retval, st))
    decreases fuel, clauses, 1
  {
    if clauses.Clause? {
      if AnyMatches(env, clauses.patterns, word, st.w) {
        ActionsFuel(env, fuel, word, clauses, ignore, depth, inFn, st);
      } else {
        CaseFuel(env, fuel, word, clauses.rest, ignore, depth, inFn, retval, st);
      }
    }
  }

  lemma {:induction false} ActionsFuel<W>(env: Env<W>, fuel: nat, word: string, clauses: Clauses<()>, ignore: bool,
        depth: nat, inFn: bool, st: State<W>)
    requires clauses.Clause?
    ensures Enough(ExecActions(env, fuel, word, clauses, ignore, depth, inFn, st),
            ExecActions(env, fuel + 1, word, clauses, ignore, depth, inFn, st))
    decreases fuel, clauses, 0
  {
    MoreFuel(env, fuel, clauses.action, ignore, depth, inFn, st);
    var o := Exec(env, fuel, clauses.action, ignore, depth, inFn, st);
    if o.Ended? && o.signal.Normal? {
      if clauses.after.TestNext? {
        CaseFuel(env, fuel, word, clauses.rest, ignore, depth, inFn, o.status, o.st);
      } else if clauses.after.FallThrough? && clauses.rest.Clause? {
        ActionsFuel(env, fuel, word, clauses.rest, ignore, depth, inFn, o.st);
      }
    }
  }

  lemma {:induction false} EnoughFuel<W>(env: Env<W>, fuel: nat, more: nat, c: Command<()>, ignore: bool, depth: nat,
        inFn: bool, st: State<W>)
    ensures Enough(Exec(env, fuel, c, ignore, depth, inFn, st), Exec(env, fuel + more, c, ignore, depth, inFn, st))
    decreases more
  {
    if more > 0 {
      MoreFuel(env, fuel, c, ignore, depth, inFn, st);
      EnoughFuel(env, fuel + 1, more - 1, c, ignore, depth, inFn, st);
    }
  }
}
