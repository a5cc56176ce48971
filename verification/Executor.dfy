/** The control core of execute_cmd.c: counters that tell how many loops are still to be left, looked at on
    entry to every command, and flags set in the tree itself that tell whose failure is ignored. Proved to
    run commands as ControlSemantics says. */
module Executor {
  import opened ControlSemantics
  import opened CommandTree
  import opened Wrappers

  /** How a routine is left: with a status, by the jump of `set -e`, by the jump of `return`, or for want
      of fuel. */
  datatype Jump = Fell(status: int) | ErrExit | ReturnCatch(value: int) | NoFuel

  ghost function Erased(functions: map<string, Tree>): map<string, Command<()>> {
    map name | name in functions :: Erase(functions[name])
  }

  /** The functions' bodies have their cells among `stored`, and no flag set. */
  ghost predicate Untouched(functions: map<string, Tree>, stored: set<Cell>)
    reads stored
  {
    forall name :: name in functions ==> Cells(functions[name]) <= stored && Clear(Frozen(functions[name]))
  }

  lemma StoredFunctions(functions: map<string, Tree>, stored: set<Cell>)
    ensures forall name :: name in functions <==> name in Erased(functions)
    ensures forall name :: name in functions ==> Erased(functions)[name] == Erase(functions[name])
  {
  }

  lemma StoredMore(functions: map<string, Tree>, stored: set<Cell>, name: string, c: Tree)
    requires Untouched(functions, stored) && Clear(Frozen(c))
    ensures Untouched(functions[name := c], stored + Cells(c))
    ensures Erased(functions[name := c]) == Erased(functions)[name := Erase(c)]
  {
    hide Cells, Erase, Clear, Frozen;
  }

  // ---------- what commands mean, part by part ----------

  /** A command that ends with a signal leaves its status in `$?`. */
  lemma Signalled<W>(env: Env<W>, fuel: nat, c: Tree, ignore: bool, depth: nat, inFn: bool, st: State<W>)
    ensures var o := Exec(env, fuel, Erase(c), ignore, depth, inFn, st);
            o.Ended? && !o.signal.Normal? ==> o.signal.n > 0 && o.signal.n <= depth && o.st.last == o.status
  {
    hide ExecNode;
  }

  lemma CommandMeans<W>(env: Env<W>, fuel: nat, c: Tree, ignore: bool, depth: nat, inFn: bool, st: State<W>)
    requires c.Command?
    ensures var o := ExecNode(env, fuel, EraseNode(c.node), ignore || c.invert, depth, inFn, st);
            Exec(env, fuel, Erase(c), ignore, depth, inFn, st) ==
            if o.Ended? then Ended(o.signal, Inverted(c.invert, o.status),
                o.st.(last := Inverted(c.invert, o.status))) else o
  {
    hide ExecNode, EraseNode, Sane, Inverted;
  }

  lemma LeafMeans<W>(env: Env<W>, fuel: nat, n: Node<Cell>, ignore: bool, depth: nat, inFn: bool, st: State<W>)
    ensures n.Simple? ==> EraseNode(n).Simple? && EraseNode(n).words == n.words
                          && ExecNode(env, fuel, EraseNode(n), ignore, depth, inFn, st)
                             == Checked(env, ignore, ExecSimple(env, fuel, EraseNode(n), ignore, depth, inFn, st))
    ensures n.FunctionDef? ==> ExecNode(env, fuel, EraseNode(n), ignore, depth, inFn, st)
                               == Checked(env, ignore, Define(env, n.name, Erase(n.body), st))
    ensures n.Group? ==>
              ExecNode(env, fuel, EraseNode(n), ignore, depth, inFn, st)
              == Exec(env, fuel, Erase(n.body), ignore, depth, inFn, st)
  {
    hide Exec, ExecSimple, Checked, Define, Sane;
  }

  lemma ListMeans<W>(env: Env<W>, fuel: nat, n: Node<Cell>, ignore: bool, depth: nat, inFn: bool, st: State<W>)
    requires n.List?
    ensures var o := Exec(env, fuel, Erase(n.first), ignore, depth, inFn, st);
            ExecNode(env, fuel, EraseNode(n), ignore, depth, inFn, st) ==
            if o.Ended? && o.signal.Normal? then Exec(env, fuel, Erase(n.second), ignore, depth, inFn, o.st) else o
  {
    hide Exec, Sane;
  }

  lemma AndOrMeans<W>(env: Env<W>, fuel: nat, n: Node<Cell>, ignore: bool, depth: nat, inFn: bool, st: State<W>)
    requires n.AndOr?
    ensures var o := Exec(env, fuel, Erase(n.first), true, depth, inFn, st);
            ExecNode(env, fuel, EraseNode(n), ignore, depth, inFn, st) ==
            if o.Ended? && o.signal.Normal? && (o.status == EXECUTION_SUCCESS) == n.and
            then Exec(env, fuel, Erase(n.second), ignore, depth, inFn, o.st) else o
  {
    hide Exec, Sane;
  }

  lemma IfMeans<W>(env: Env<W>, fuel: nat, n: Node<Cell>, ignore: bool, depth: nat, inFn: bool, st: State<W>)
    requires n.If?
    ensures var o := Exec(env, fuel, Erase(n.test), true, depth, inFn, st);
            ExecNode(env, fuel, EraseNode(n), ignore, depth, inFn, st) ==
            if o.Ended? && o.signal.Normal?
            then Exec(env, fuel, Erase(if o.status == EXECUTION_SUCCESS then n.yes else n.no), ignore, depth, inFn,
                o.st) else o
  {
    hide Exec, Sane;
  }

  /** One turn of a while or until loop. */
  lemma WhileTurn<W>(env: Env<W>, fuel: nat, n: Node<Cell>, ignore: bool, depth: nat, inFn: bool, retval: int,
        st: State<W>)
    requires n.While?
    ensures EraseNode(n).While?
    ensures var o := Exec(env, fuel, Erase(n.test), true, depth + 1, inFn, st);
            ExecWhile(env, fuel, EraseNode(n), ignore, depth, inFn, retval, st) ==
            if !o.Ended? then o
            else if (o.status == EXECUTION_SUCCESS) == n.until then Ended(AfterTest(o.signal), retval, o.st)
            else
              var b := if o.signal.Normal? then Exec(env, fuel, Erase(n.action), ignore, depth + 1, inFn, o.st) else o;
              AfterTurn(env, fuel, n, ignore, depth, inFn, b)
  {
    hide Exec, Sane, Erase;
  }

  /** The turns of a while or until loop that follow a body which ended as b says. */
  function AfterTurn<W>(env: Env<W>, fuel: nat, n: Node<Cell>, ignore: bool, depth: nat, inFn: bool,
        b: Outcome<W>): Outcome<W>
    requires n.While?
  {
    if !b.Ended? then b
    else
      match AfterBody(b.signal)
      case Leave(signal) => Ended(signal, b.status, b.st)
      case GoOn => if fuel == 0 then OutOfFuel
          else ExecWhile(env, fuel - 1, EraseNode(n), ignore, depth, inFn, b.status, b.st)
  }

  lemma WhileMeans<W>(env: Env<W>, fuel: nat, n: Node<Cell>, ignore: bool, depth: nat, inFn: bool, st: State<W>)
    requires n.While?
    ensures EraseNode(n).While?
    ensures ExecNode(env, fuel, EraseNode(n), ignore, depth, inFn, st)
            == ExecWhile(env, fuel, EraseNode(n), ignore, depth, inFn, EXECUTION_SUCCESS, st)
  {
    hide Exec, Sane, Erase, ExecWhile;
  }

  lemma ForMeans<W>(env: Env<W>, fuel: nat, n: Node<Cell>, ignore: bool, depth: nat, inFn: bool, st: State<W>)
    requires n.For?
    ensures ExecNode(env, fuel, EraseNode(n), ignore, depth, inFn, st) ==
            if !env.oracle.identifier(n.name) then Ended(Normal, EXECUTION_FAILURE, st)
            else
              var (list, w) := env.oracle.expand(n.words, st.last, st.w);
              ExecFor(env, fuel, n.name, list, Erase(n.action), ignore, depth + 1, inFn, EXECUTION_SUCCESS, st.(w := w))
  {
    hide Exec, Sane, Erase, ExecFor;
  }

  /** One turn of a for loop. */
  lemma ForTurn<W>(env: Env<W>, fuel: nat, name: string, list: seq<string>, c: Command<()>, ignore: bool, depth: nat,
        inFn: bool, retval: int, st: State<W>)
    requires depth > 0
    ensures ExecFor(env, fuel, name, list, c, ignore, depth, inFn, retval, st) ==
            if list == [] then Ended(Normal, retval, st)
            else
              var w := env.oracle.bind(name, list[0], st.w);
              if w.None? then Ended(Normal, EXECUTION_FAILURE, st)
              else
                var b := Exec(env, fuel, c, ignore, depth, inFn, st.(w := w.value));
                if !b.Ended? then b
                else if AfterBody(b.signal).Leave? then Ended(AfterBody(b.signal).signal, b.status, b.st)
                else ExecFor(env, fuel, name, list[1..], c, ignore, depth, inFn, b.status, b.st)
  {
    hide Exec, Sane;
  }

  lemma CaseMeans<W>(env: Env<W>, fuel: nat, n: Node<Cell>, ignore: bool, depth: nat, inFn: bool, st: State<W>)
    requires n.Case?
    ensures ExecNode(env, fuel, EraseNode(n), ignore, depth, inFn, st) ==
            var (word, w) := env.oracle.subject(n.subject, st.last, st.w);
            ExecCase(env, fuel, word, EraseClauses(n.clauses), ignore, depth, inFn, EXECUTION_SUCCESS, st.(w := w))
  {
    hide ExecCase, Sane, EraseClauses;
  }

  /** The test of one clause. */
  lemma ClauseTurn<W>(env: Env<W>, fuel: nat, word: string, l: Clauses<Cell>, ignore: bool, depth: nat, inFn: bool,
        retval: int, st: State<W>)
    ensures ExecCase(env, fuel, word, EraseClauses(l), ignore, depth, inFn, retval, st) ==
            if l.NoClause? then Ended(Normal, retval, st)
            else if AnyMatches(env, l.patterns, word, st.w)
                then ExecActions(env, fuel, word, EraseClauses(l), ignore, depth, inFn, st)
            else ExecCase(env, fuel, word, EraseClauses(l.rest), ignore, depth, inFn, retval, st)
  {
    hide Exec, ExecActions, Sane, AnyMatches;
  }

  /** The action of one clause. */
  lemma ActionTurn<W>(env: Env<W>, fuel: nat, word: string, l: Clauses<Cell>, ignore: bool, depth: nat, inFn: bool,
        st: State<W>)
    requires l.Clause?
    ensures var o := Exec(env, fuel, Erase(l.action), ignore, depth, inFn, st);
            ExecActions(env, fuel, word, EraseClauses(l), ignore, depth, inFn, st) ==
            if !o.Ended? || !o.signal.Normal? then o
            else if l.after.TestNext?
                then ExecCase(env, fuel, word, EraseClauses(l.rest), ignore, depth, inFn, o.status, o.st)
            else if l.after.FallThrough? && l.rest.Clause?
                then ExecActions(env, fuel, word, EraseClauses(l.rest), ignore, depth, inFn, o.st)
            else o
  {
    hide Exec, Sane, Erase;
  }

  /** part is what is left of l after some clauses. */
  ghost predicate Suffix(part: Clauses<Cell>, l: Clauses<Cell>) {
    part == l || (l.Clause? && Suffix(part, l.rest))
  }

  lemma {:induction false} SuffixRest(part: Clauses<Cell>, l: Clauses<Cell>)
    requires Suffix(part, l) && part.Clause?
    ensures Suffix(part.rest, l)
  {
    if part != l {
      SuffixRest(part, l.rest);
    }
  }

  lemma {:induction false} SuffixSmaller(part: Clauses<Cell>, l: Clauses<Cell>)
    requires Suffix(part, l)
    ensures part == l || part < l
  {
    if part != l {
      SuffixSmaller(part, l.rest);
    }
  }

  lemma {:induction false} SuffixCells(part: Clauses<Cell>, l: Clauses<Cell>)
    requires Suffix(part, l)
    ensures ClausesCells(part) <= ClausesCells(l) && (part.Clause? ==> Cells(part.action) <= ClausesCells(l))
  {
    if part != l {
      SuffixCells(part, l.rest);
    }
  }

  /** A part of clauses that may be run may be run. */
  lemma {:induction false} SuffixSits(part: Clauses<Cell>, l: Clauses<Cell>, ignore: bool)
    requires Suffix(part, l) && ClausesSit(l, ignore)
    ensures ClausesSit(part, ignore) && ClausesCells(part) <= ClausesCells(l)
  {
    hide ClausesSit;
    if part != l {
      ClauseParts(l, ignore);
      SuffixSits(part, l.rest, ignore);
    }
  }

  /** Running one action, which may be run again, leaves the clauses so. */
  twostate lemma {:induction false} SuffixKept(l: Clauses<Cell>, new part: Clauses<Cell>, new ignore: bool)
    requires Suffix(part, l) && part.Clause? && old(ClausesSit(l, ignore)) && Sits(part.action, ignore)
    requires forall x :: x in ClausesCells(l) ==> old(allocated(x)) && (x !in Cells(part.action) ==> unchanged(x))
    ensures ClausesSit(l, ignore)
  {
    hide Distinct, Sound, Frozen, Cells;
    assert ClausesCells(l) == Cells(l.action) + ClausesCells(l.rest);
    assert old(ClausesSit(l, ignore)) ==> Cells(l.action) !! ClausesCells(l.rest);
    if part == l {
      assert FrozenClauses(l.rest) == old(FrozenClauses(l.rest));
    } else {
      SuffixCells(part, l.rest);
      assert Frozen(l.action) == old(Frozen(l.action));
      SuffixKept(l.rest, part, ignore);
    }
  }

  class Shell<W> {
    const env: Env<W>
    var breaking: nat
    var continuing: nat
    var loop_level: nat
    var last_command_exit_value: int
    var functions: map<string, Tree>
    var world: W
    var return_catch_flag: nat
    ghost var failures: seq<int>
    ghost var stored: set<Cell>

    ghost predicate Valid()
      reads this, stored
    {
      Untouched(functions, stored)
    }

    ghost function St(): State<W>
      reads this
    {
      State(last_command_exit_value, Erased(functions), world, failures)
    }

    ghost predicate Signals(signal: Signal)
      reads this
    {
      match signal
      case Normal => breaking == 0 && continuing == 0
      case Break(n) => breaking == n && n > 0 && continuing == 0
      case Continue(n) => continuing == n && n > 0 && breaking == 0
    }

    /** A signal is on its way out, with its status in `$?`. */
    ghost predicate Stuck(o: Outcome<W>)
      reads this
    {
      o.Ended? && !o.signal.Normal? && Signals(o.signal) && o.st == St() && o.status == last_command_exit_value
    }

    /** A routine called at loop_level `level` ended as o says. */
    ghost predicate Agrees(r: Jump, o: Outcome<W>, level: nat, catches: nat)
      reads this
    {
      match o
      case Ended(signal, status, st) =>
        r == Fell(status) && St() == st && loop_level == level && return_catch_flag == catches && Signals(signal)
      case Exited(st) => r == ErrExit && St() == st
      case Returned(status, st) => r == ReturnCatch(status) && St() == st && Signals(Normal)
      case OutOfFuel => r == NoFuel
    }

    constructor (env: Env<W>, world: W)
      ensures Valid() && Signals(Normal) && loop_level == 0 && return_catch_flag == 0 && this.env == env && stored == {}
      ensures St() == State(0, map[], world, [])
    {
      this.env, this.world := env, world;
      breaking, continuing, loop_level, last_command_exit_value, functions, return_catch_flag := 0, 0, 0, 0, map[], 0;
      failures, stored := [], {};
    }

    /** command->flags |= CMD_IGNORE_RETURN, where failures are ignored. */
    method Ignore(c: Tree)
      requires Sits(c, true)
      modifies Cells(c)
      ensures Fits(true, c, true)
    {
      hide NodeSits;
      if c.Command? {
        CommandParts(c, true);
        c.flags.ignore := true;
        CommandParts(c, true);
      }
    }

    /** The same if `set_flag` says so; then c may be run with the flag that it now has. */
    method Inherit(c: Tree, set_flag: bool, ghost ignore: bool)
      requires Sits(c, ignore) && (set_flag ==> ignore) && (env.errexit ==> set_flag == ignore)
      modifies Cells(c)
      ensures Fits(env.errexit, c, ignore)
    {
      if set_flag {
        Ignore(c);
      } else if c.Command? {
        CommandParts(c, ignore);
      }
    }

    /** execute_command_internal */
    method Execute(c: Tree, ghost ignore: bool, fuel: nat, ghost own: set<Cell>) returns (r: Jump)
      requires own == Cells(c) && own !! stored && Valid() && Fits(env.errexit, c, ignore)
      modifies this, own
      ensures Valid() && fresh(stored - old(stored)) && Fits(env.errexit, c, ignore)
      ensures old(Signals(Normal)) ==>
                Agrees(r, Exec(env, fuel, Erase(c), ignore, old(loop_level), old(return_catch_flag) > 0, old(St())),
                       old(loop_level), old(return_catch_flag))
      ensures !old(Signals(Normal)) ==>
                r == Fell(last_command_exit_value) && St() == old(St()) && loop_level == old(loop_level)
                && return_catch_flag == old(return_catch_flag) && breaking == old(breaking)
                    && continuing == old(continuing)
      decreases fuel, c, 2
    {
      if breaking > 0 || continuing > 0 {
        return Fell(last_command_exit_value);
      }
      if c.Null? {
        return Fell(EXECUTION_SUCCESS);
      }
      hide Exec, ExecNode, Sane, Sits, NodeSits, Cells, NodeCells, Erase, EraseNode, Erased, Untouched;
      CommandParts(c, ignore);
      CommandMeans(env, fuel, c, ignore, loop_level, return_catch_flag > 0, St());
      if env.errexit && c.invert {
        c.flags.ignore := true;
      }
      r := ExecuteNode(c.node, ignore || c.invert, c.flags.ignore, c.invert, fuel, NodeCells(c.node));
      if r.Fell? {
        var exec_result := if !c.invert then r.status
                           else if r.status == EXECUTION_SUCCESS then EXECUTION_FAILURE else EXECUTION_SUCCESS;
        last_command_exit_value := exec_result;
        r := Fell(exec_result);
      }
      CommandParts(c, ignore);
    }

    /** A command of the top level, as the parser made it: whatever it does, no loop is counted and no
        signal is left over afterwards. */
    method Run(c: Tree, fuel: nat, ghost own: set<Cell>) returns (r: Jump)
      requires own == Cells(c) && own !! stored && Valid() && Distinct(c) && Clear(Frozen(c))
      requires Signals(Normal) && loop_level == 0 && return_catch_flag == 0
      modifies this, own
      ensures Valid() && !r.ReturnCatch? && Agrees(r, Exec(env, fuel, Erase(c), false, 0, false, old(St())), 0, 0)
      ensures r.Fell? ==> Signals(Normal) && loop_level == 0
    {
      hide Exec, Erase, Erased, Untouched, Cells, Distinct, Frozen, Clear, Sound;
      ClearIsSound(Frozen(c), false);
      Signalled(env, fuel, c, false, 0, false, St());
      FlagClear(c);
      r := Execute(c, false, fuel, own);
    }

    lemma FlagClear(c: Tree)
      requires Clear(Frozen(c))
      ensures c.Command? ==> !c.flags.ignore
    {
    }

    /** The switch of execute_command_internal. */
    method ExecuteNode(n: Node<Cell>, ghost ignore: bool, ignore_return: bool, invert: bool, fuel: nat,
          ghost own: set<Cell>) returns (r: Jump)
      requires own == NodeCells(n) && own !! stored && Valid() && NodeSits(n, ignore) && Signals(Normal)
      requires (ignore_return ==> ignore) && (env.errexit ==> ignore_return == ignore) && (invert ==> ignore)
      modifies this, own
      ensures Valid() && fresh(stored - old(stored)) && NodeSits(n, ignore)
      ensures Agrees(r, ExecNode(env, fuel, EraseNode(n), ignore, old(loop_level), old(return_catch_flag) > 0,
              old(St())), old(loop_level), old(return_catch_flag))
      decreases fuel, n, 3
    {
      hide Exec, ExecSimple, Checked, ExecNode, Sane, Sits, NodeSits, Cells, NodeCells, Erase, EraseNode, Erased,
          Untouched;
      ghost var st, inFn := St(), return_catch_flag > 0;
      LeafParts(n, ignore);
      LeafMeans(env, fuel, n, ignore, loop_level, inFn, st);
      match n
      case Simple(inner, _) =>
        if ignore_return {
          inner.ignore := true;
        }
        r := ExecuteSimple(n, ignore, fuel);
        r := Check(r, ignore, ignore_return, invert,
            ExecSimple(env, fuel, EraseNode(n), ignore, old(loop_level), inFn, st),
                   old(loop_level), old(return_catch_flag));
        LeafParts(n, ignore);
      case FunctionDef(name, body) =>
        r := DefineFunction(name, body, own);
        r := Check(r, ignore, ignore_return, invert, Define(env, name, Erase(body), st), old(loop_level),
            old(return_catch_flag));
      case Group(body) =>
        Inherit(body, ignore_return, ignore);
        r := Execute(body, ignore, fuel, own);
        LeafParts(n, ignore);
      case List(_, _) => r := ExecuteList(n, ignore, ignore_return, fuel, own);
      case AndOr(_, _, _) => r := ExecuteAndOr(n, ignore, ignore_return, fuel, own);
      case _ => r := ExecuteCompound(n, ignore, ignore_return, fuel, own);
    }

    /** The part of that switch for the compound commands that have flags of their own. */
    method ExecuteCompound(n: Node<Cell>, ghost ignore: bool, ignore_return: bool, fuel: nat,
          ghost own: set<Cell>) returns (r: Jump)
      requires own == NodeCells(n) && own !! stored && Valid() && NodeSits(n, ignore) && Signals(Normal)
      requires (n.If? || n.While? || n.For? || n.Case?) && (ignore_return ==> ignore)
               && (env.errexit ==> ignore_return == ignore)
      modifies this, own
      ensures Valid() && fresh(stored - old(stored)) && NodeSits(n, ignore)
      ensures Agrees(r, ExecNode(env, fuel, EraseNode(n), ignore, old(loop_level), old(return_catch_flag) > 0,
              old(St())), old(loop_level), old(return_catch_flag))
      decreases fuel, n, 2
    {
      hide Exec, ExecNode, Sane, Sits, NodeSits, Cells, NodeCells, Erase, EraseNode, Erased, Untouched;
      MarkInner(n, ignore, ignore_return);
      if n.If? {
        r := ExecuteIf(n, ignore, fuel, own);
      } else if n.While? {
        r := ExecuteWhile(n, ignore, fuel, own);
      } else if n.For? {
        r := ExecuteFor(n, ignore, fuel, own);
      } else {
        r := ExecuteCase(n, ignore, fuel, own);
      }
    }

    /** Sets the flag of a compound command's own if failures are ignored. */
    method MarkInner(n: Node<Cell>, ghost ignore: bool, ignore_return: bool)
      requires NodeSits(n, ignore) && (ignore_return ==> ignore) && (env.errexit ==> ignore_return == ignore)
      requires n.If? || n.While? || n.For? || n.Case?
      modifies NodeCells(n)
      ensures NodeSits(n, ignore) && (env.errexit ==> n.inner.ignore == ignore)
    {
      hide Sits, NodeSits, ClausesSit, Cells, NodeCells, ClausesCells;
      match n
      case If(inner, _, _, _) =>
        IfParts(n, ignore);
        inner.ignore := inner.ignore || ignore_return;
        IfParts(n, ignore);
      case While(inner, _, _, _) =>
        WhileParts(n, ignore);
        inner.ignore := inner.ignore || ignore_return;
        WhileParts(n, ignore);
      case For(inner, _, _, _) =>
        ForParts(n, ignore);
        inner.ignore := inner.ignore || ignore_return;
        ForParts(n, ignore);
      case Case(inner, _, _) =>
        CaseParts(n, ignore);
        inner.ignore := inner.ignore || ignore_return;
        CaseParts(n, ignore);
    }

    /** What follows a simple command and a function definition. */
    method Check(r0: Jump, ghost ignore: bool, ignore_return: bool, invert: bool, ghost o: Outcome<W>,
          ghost level: nat, ghost catches: nat) returns (r: Jump)
      requires (ignore_return ==> ignore) && (env.errexit ==> ignore_return == ignore) && (invert ==> ignore)
      requires Agrees(r0, o, level, catches)
      modifies this`last_command_exit_value, this`failures
      ensures Agrees(r, Checked(env, ignore, o), level, catches)
    {
      hide Erased;
      r := r0;
      if r0.Fell? && r0.status != EXECUTION_SUCCESS {
        if !ignore_return && !invert && env.errexit {
          last_command_exit_value := r0.status;
          return ErrExit;
        }
        if !ignore && !env.errexit {
          failures := failures + [r0.status];
        }
      }
    }

    /** execute_connection, for `;` */
    method ExecuteList(n: Node<Cell>, ghost ignore: bool, ignore_return: bool, fuel: nat,
          ghost own: set<Cell>) returns (r: Jump)
      requires own == NodeCells(n) && own !! stored && Valid() && NodeSits(n, ignore) && Signals(Normal)
      requires n.List? && (ignore_return ==> ignore) && (env.errexit ==> ignore_return == ignore)
      modifies this, own
      ensures Valid() && fresh(stored - old(stored)) && NodeSits(n, ignore)
      ensures Agrees(r, ExecNode(env, fuel, EraseNode(n), ignore, old(loop_level), old(return_catch_flag) > 0,
              old(St())), old(loop_level), old(return_catch_flag))
      decreases fuel, n, 1
    {
      hide Exec, ExecNode, Sane, Sits, NodeSits, Cells, NodeCells, Erase, EraseNode, Erased, Untouched;
      ghost var level, inFn, st := loop_level, return_catch_flag > 0, St();
      PairParts(n, ignore);
      ListMeans(env, fuel, n, ignore, level, inFn, st);
      Signalled(env, fuel, n.first, ignore, level, inFn, st);
      Inherit(n.first, ignore_return, ignore);
      Inherit(n.second, ignore_return, ignore);
      r := Execute(n.first, ignore, fuel, Cells(n.first));
      if r.Fell? {
        r := Execute(n.second, ignore, fuel, Cells(n.second));
      }
      PairParts(n, ignore);
    }

    /** execute_connection, for `&&` and `||` */
    method ExecuteAndOr(n: Node<Cell>, ghost ignore: bool, ignore_return: bool, fuel: nat,
          ghost own: set<Cell>) returns (r: Jump)
      requires own == NodeCells(n) && own !! stored && Valid() && NodeSits(n, ignore) && Signals(Normal)
      requires n.AndOr? && (ignore_return ==> ignore) && (env.errexit ==> ignore_return == ignore)
      modifies this, own
      ensures Valid() && fresh(stored - old(stored)) && NodeSits(n, ignore)
      ensures Agrees(r, ExecNode(env, fuel, EraseNode(n), ignore, old(loop_level), old(return_catch_flag) > 0,
              old(St())), old(loop_level), old(return_catch_flag))
      decreases fuel, n, 1
    {
      hide Exec, ExecNode, Sane, Sits, NodeSits, Cells, NodeCells, Erase, EraseNode, Erased, Untouched;
      ghost var level, inFn, st := loop_level, return_catch_flag > 0, St();
      PairParts(n, ignore);
      AndOrMeans(env, fuel, n, ignore, level, inFn, st);
      Signalled(env, fuel, n.first, true, level, inFn, st);
      Ignore(n.first);
      r := Execute(n.first, true, fuel, Cells(n.first));
      if r.Fell? && ((n.and && r.status == EXECUTION_SUCCESS) || (!n.and && r.status != EXECUTION_SUCCESS)) {
        Inherit(n.second, ignore_return, ignore);
        r := Execute(n.second, ignore, fuel, Cells(n.second));
      }
      PairParts(n, ignore);
    }

    /** execute_if_command */
    method ExecuteIf(n: Node<Cell>, ghost ignore: bool, fuel: nat, ghost own: set<Cell>) returns (r: Jump)
      requires own == NodeCells(n) && own !! stored && Valid() && NodeSits(n, ignore) && Signals(Normal)
      requires n.If? && (env.errexit ==> n.inner.ignore == ignore)
      modifies this, own
      ensures Valid() && fresh(stored - old(stored)) && NodeSits(n, ignore)
      ensures Agrees(r, ExecNode(env, fuel, EraseNode(n), ignore, old(loop_level), old(return_catch_flag) > 0,
              old(St())), old(loop_level), old(return_catch_flag))
      decreases fuel, n, 1
    {
      hide Exec, ExecNode, Sane, Sits, NodeSits, Cells, NodeCells, Erase, EraseNode, Erased, Untouched;
      ghost var level, inFn, st := loop_level, return_catch_flag > 0, St();
      IfParts(n, ignore);
      IfMeans(env, fuel, n, ignore, level, inFn, st);
      Signalled(env, fuel, n.test, true, level, inFn, st);
      Ignore(n.test);
      r := Execute(n.test, true, fuel, Cells(n.test));
      if r.Fell? {
        var branch := if r.status == EXECUTION_SUCCESS then n.yes else n.no;
        Inherit(branch, n.inner.ignore, ignore);
        r := Execute(branch, ignore, fuel, Cells(branch));
      }
      IfParts(n, ignore);
    }

    /** execute_intern_function: the function gets a copy of the body. */
    method DefineFunction(name: string, body: Tree, ghost own: set<Cell>) returns (r: Jump)
      requires own == Cells(body) && own !! stored && Valid() && Clear(Frozen(body)) && Signals(Normal)
      modifies this
      ensures Valid() && fresh(stored - old(stored))
      ensures Agrees(r, Define(env, name, Erase(body), old(St())), old(loop_level), old(return_catch_flag))
    {
      hide Erase, Erased, Untouched, Cells, Distinct;
      if !env.oracle.identifier(name) {
        return Fell(EXECUTION_FAILURE);
      }
      var copy, cells := Copy(body, own);
      StoredMore(functions, stored, name, copy);
      functions := functions[name := copy];
      stored := stored + cells;
      r := Fell(EXECUTION_SUCCESS);
    }

    /** break_builtin */
    method BreakBuiltin(newbreak: int) returns (r: Jump)
      requires Signals(Normal)
      modifies this`breaking
      ensures if loop_level == 0 then r == Fell(EXECUTION_SUCCESS) && Signals(Normal)
              else if newbreak <= 0 then r == Fell(EXECUTION_FAILURE) && Signals(Break(loop_level))
              else r == Fell(EXECUTION_SUCCESS) && Signals(Break(Min(newbreak, loop_level)))
    {
      if loop_level == 0 {
        return Fell(EXECUTION_SUCCESS);
      }
      if newbreak <= 0 {
        breaking := loop_level;
        return Fell(EXECUTION_FAILURE);
      }
      breaking := if newbreak > loop_level then loop_level else newbreak;
      r := Fell(EXECUTION_SUCCESS);
    }

    /** continue_builtin: a count that is not positive breaks out of every loop. */
    method ContinueBuiltin(newcont: int) returns (r: Jump)
      requires Signals(Normal)
      modifies this`breaking, this`continuing
      ensures if loop_level == 0 then r == Fell(EXECUTION_SUCCESS) && Signals(Normal)
              else if newcont <= 0 then r == Fell(EXECUTION_FAILURE) && Signals(Break(loop_level))
              else r == Fell(EXECUTION_SUCCESS) && Signals(Continue(Min(newcont, loop_level)))
    {
      if loop_level == 0 {
        return Fell(EXECUTION_SUCCESS);
      }
      if newcont <= 0 {
        breaking := loop_level;
        return Fell(EXECUTION_FAILURE);
      }
      continuing := if newcont > loop_level then loop_level else newcont;
      r := Fell(EXECUTION_SUCCESS);
    }

    /** execute_simple_command */
    method ExecuteSimple(n: Node<Cell>, ghost ignore: bool, fuel: nat) returns (r: Jump)
      requires n.Simple? && Valid() && Signals(Normal) && (n.inner.ignore ==> ignore)
               && (env.errexit ==> n.inner.ignore == ignore)
      modifies this
      ensures Valid() && fresh(stored - old(stored))
      ensures Agrees(r, ExecSimple(env, fuel, EraseNode(n), ignore, old(loop_level), old(return_catch_flag) > 0,
              old(St())),
                     old(loop_level), old(return_catch_flag))
      decreases fuel, n, 1
    {
      hide Exec, Called, Sane, Cells, NodeCells, Erase, Erased, Untouched;
      StoredFunctions(functions, stored);
      match env.oracle.act(n.words, last_command_exit_value, world)
      case Done(status, w) =>
        world := w;
        r := Fell(status);
      case BreakLoop(k, w) =>
        world := w;
        r := BreakBuiltin(k);
      case ContinueLoop(k, w) =>
        world := w;
        r := ContinueBuiltin(k);
      case Return(status, w) =>
        world := w;
        r := if return_catch_flag > 0 then ReturnCatch(status) else Fell(EX_BADUSAGE);
      case Call(name, w) =>
        world := w;
        if name !in functions {
          return Fell(EX_NOTFOUND);
        }
        r := ExecuteFunction(name, n.inner.ignore, n, ignore, fuel);
    }

    /** A copy of a function's body, with no flag set. */
    method CopyStored(name: string, ghost ignore: bool) returns (tc: Tree, ghost cells: set<Cell>)
      requires name in functions && Valid()
      ensures cells == Cells(tc) && fresh(cells) && Sits(tc, ignore) && Erase(tc) == Erase(functions[name])
    {
      hide Cells, Erase, Clear, Sound, Distinct;
      tc, cells := Copy(functions[name], Cells(functions[name]));
      ClearIsSound(Frozen(tc), ignore);
    }

    /** execute_function: runs a copy of the function's body, outside all loops. */
    method ExecuteFunction(name: string, flag: bool, ghost n: Node<Cell>, ghost ignore: bool,
          fuel: nat) returns (r: Jump)
      requires name in functions && Valid() && Signals(Normal) && (flag ==> ignore) && (env.errexit ==> flag == ignore)
      modifies this
      ensures Valid() && fresh(stored - old(stored))
      ensures Agrees(r, if fuel == 0 then OutOfFuel
                        else Called(env, Exec(env, fuel - 1, Erase(old(functions)[name]), ignore, 0, true, old(St()))),
                     old(loop_level), old(return_catch_flag))
      decreases fuel, n, 0
    {
      hide Exec, Called, Sits, Cells, Erase, Erased, Untouched, Sane;
      if fuel == 0 {
        return NoFuel;
      }
      StoredFunctions(functions, stored);
      var tc, cells := CopyStored(name, ignore);
      Inherit(tc, flag, ignore);
      r := ExecuteBody(tc, ignore, fuel - 1, cells);
    }

    /** The part of execute_function that runs the body and puts loop_level back. */
    method ExecuteBody(tc: Tree, ghost ignore: bool, fuel: nat, ghost cells: set<Cell>) returns (r: Jump)
      requires cells == Cells(tc) && cells !! stored && Valid() && Signals(Normal) && Fits(env.errexit, tc, ignore)
      modifies this, cells
      ensures Valid() && fresh(stored - old(stored))
      ensures Agrees(r, Called(env, Exec(env, fuel, Erase(tc), ignore, 0, true, old(St()))), old(loop_level),
              old(return_catch_flag))
      decreases fuel, tc, 3
    {
      hide Exec, Sits, Cells, Erase, Erased, Untouched, Sane, Fits, Called;
      Signalled(env, fuel, tc, ignore, 0, true, St());
      ghost var o := Exec(env, fuel, Erase(tc), ignore, 0, true, St());
      var level, catches := loop_level, return_catch_flag;
      loop_level, return_catch_flag := 0, return_catch_flag + 1;
      r := Execute(tc, ignore, fuel, cells);
      r := LeaveFunction(r, level, catches, o);
    }

    /** The part of execute_function that takes a `return` in and puts loop_level back. */
    method LeaveFunction(j: Jump, level: nat, catches: nat, ghost o: Outcome<W>) returns (r: Jump)
      requires Agrees(j, o, 0, catches + 1) && (o.Ended? ==> o.signal.Normal?)
      modifies this`loop_level, this`return_catch_flag, this`world
      ensures Agrees(r, Called(env, o), level, catches)
    {
      hide Erased;
      r := if j.ReturnCatch? then Fell(j.value) else j;
      if r.Fell? {
        loop_level, return_catch_flag := level, catches;
        world := env.oracle.leave(world);
      }
    }

    /** The part of every loop that follows its body. */
    method LeaveLoop(ghost signal: Signal) returns (leave: bool)
      requires Signals(signal)
      modifies this`breaking, this`continuing
      ensures leave == AfterBody(signal).Leave? && Signals(if leave then AfterBody(signal).signal else Normal)
    {
      if breaking > 0 {
        breaking := breaking - 1;
        return true;
      }
      if continuing > 0 {
        continuing := continuing - 1;
        return continuing > 0;
      }
      leave := false;
    }

    /** The part of a while or until loop that follows a test that ends it. */
    method LeaveInTest(ghost signal: Signal)
      requires Signals(signal)
      modifies this`breaking, this`continuing
      ensures Signals(AfterTest(signal))
    {
      if breaking > 0 {
        breaking := breaking - 1;
      }
      if continuing > 0 {
        continuing := continuing - 1;
      }
    }

    /** execute_while_or_until */
    method ExecuteWhile(n: Node<Cell>, ghost ignore: bool, fuel: nat, ghost own: set<Cell>) returns (r: Jump)
      requires own == NodeCells(n) && own !! stored && Valid() && NodeSits(n, ignore) && Signals(Normal)
      requires n.While? && (env.errexit ==> n.inner.ignore == ignore)
      modifies this, own
      ensures Valid() && fresh(stored - old(stored)) && NodeSits(n, ignore)
      ensures Agrees(r, ExecNode(env, fuel, EraseNode(n), ignore, old(loop_level), old(return_catch_flag) > 0,
              old(St())), old(loop_level), old(return_catch_flag))
      decreases fuel, n, 1
    {
      hide Exec, ExecNode, ExecWhile, Sane, Sits, NodeSits, Cells, NodeCells, Erase, EraseNode, Erased, Untouched;
      ghost var level, inFn, catches := loop_level, return_catch_flag > 0, return_catch_flag;
      ghost var o := ExecNode(env, fuel, EraseNode(n), ignore, level, inFn, St());
      WhileMeans(env, fuel, n, ignore, level, inFn, St());
      WhileParts(n, ignore);
      var body_status, f: nat := EXECUTION_SUCCESS, fuel;
      loop_level := loop_level + 1;
      Ignore(n.test);
      Inherit(n.action, n.inner.ignore, ignore);
      while true
        invariant Valid() && fresh(stored - old(stored)) && Signals(Normal) && f <= fuel
        invariant Fits(env.errexit, n.test, true) && Fits(env.errexit, n.action, ignore)
                  && n.inner.ignore == old(n.inner.ignore)
        invariant loop_level == level + 1 && return_catch_flag == catches
        invariant ExecWhile(env, f, EraseNode(n), ignore, level, inFn, body_status, St()) == o
        decreases f
      {
        var leave;
        r, leave := ExecuteTurn(n, ignore, level, body_status, f, Cells(n.test), Cells(n.action));
        if !r.Fell? {
          WhileParts(n, ignore);
          return;
        }
        body_status := r.status;
        if leave {
          break;
        }
        if f == 0 {
          WhileParts(n, ignore);
          return NoFuel;
        }
        f := f - 1;
      }
      WhileParts(n, ignore);
      loop_level := loop_level - 1;
      r := Fell(body_status);
    }

    /** One turn of execute_while_or_until's loop. */
    method ExecuteTurn(n: Node<Cell>, ghost ignore: bool, ghost level: nat, body_status: int, f: nat,
          ghost tests: set<Cell>, ghost actions: set<Cell>)
      returns (r: Jump, leave: bool)
      requires n.While? && tests == Cells(n.test) && actions == Cells(n.action) && tests !! actions
               && tests + actions !! stored
      requires Valid() && Signals(Normal) && loop_level == level + 1
      requires Fits(env.errexit, n.test, true) && Fits(env.errexit, n.action, ignore)
      modifies this, tests, actions
      ensures Valid() && fresh(stored - old(stored)) && Fits(env.errexit, n.test, true)
              && Fits(env.errexit, n.action, ignore)
      ensures EraseNode(n).While? &&
              var o := ExecWhile(env, f, EraseNode(n), ignore, level, old(return_catch_flag) > 0, body_status,
                  old(St()));
              && (!r.Fell? ==> !o.Ended? && Agrees(r, o, level, return_catch_flag))
              && (r.Fell? ==> loop_level == level + 1 && return_catch_flag == old(return_catch_flag))
              && (r.Fell? && leave ==> o.Ended? && o.status == r.status && o.st == St() && Signals(o.signal))
              && (r.Fell? && !leave ==>
                    Signals(Normal)
                    && o == if f == 0 then OutOfFuel
                            else ExecWhile(env, f - 1, EraseNode(n), ignore, level, old(return_catch_flag) > 0,
                                r.status, St()))
      decreases f, n, 0
    {
      hide Exec, ExecNode, ExecWhile, Sane, Sits, NodeSits, Cells, NodeCells, Erase, EraseNode, Erased, Untouched;
      ghost var inFn, st := return_catch_flag > 0, St();
      WhileTurn(env, f, n, ignore, level, inFn, body_status, st);
      Signalled(env, f, n.test, true, level + 1, inFn, st);
      leave := true;
      r := Execute(n.test, true, f, tests);
      if !r.Fell? {
        return;
      }
      ghost var o := Exec(env, f, Erase(n.test), true, level + 1, inFn, st);
      if (r.status == EXECUTION_SUCCESS) == n.until {
        LeaveInTest(o.signal);
        r := Fell(body_status);
        return;
      }
      Signalled(env, f, n.action, ignore, level + 1, inFn, St());
      r := Execute(n.action, ignore, f, actions);
      if r.Fell? {
        leave := LeaveLoop(if o.signal.Normal?
            then Exec(env, f, Erase(n.action), ignore, level + 1, inFn, o.st).signal else o.signal);
      }
    }

    /** execute_for_command */
    method ExecuteFor(n: Node<Cell>, ghost ignore: bool, fuel: nat, ghost own: set<Cell>) returns (r: Jump)
      requires own == NodeCells(n) && own !! stored && Valid() && NodeSits(n, ignore) && Signals(Normal)
      requires n.For? && (env.errexit ==> n.inner.ignore == ignore)
      modifies this, own
      ensures Valid() && fresh(stored - old(stored)) && NodeSits(n, ignore)
      ensures Agrees(r, ExecNode(env, fuel, EraseNode(n), ignore, old(loop_level), old(return_catch_flag) > 0,
              old(St())), old(loop_level), old(return_catch_flag))
      decreases fuel, n, 1
    {
      hide Exec, ExecNode, ExecFor, Sane, Sits, NodeSits, Cells, NodeCells, Erase, EraseNode, Erased, Untouched;
      ghost var level, inFn, catches := loop_level, return_catch_flag > 0, return_catch_flag;
      ghost var o := ExecNode(env, fuel, EraseNode(n), ignore, level, inFn, St());
      ForMeans(env, fuel, n, ignore, level, inFn, St());
      ForParts(n, ignore);
      if !env.oracle.identifier(n.name) {
        return Fell(EXECUTION_FAILURE);
      }
      loop_level := loop_level + 1;
      var (list, w) := env.oracle.expand(n.words, last_command_exit_value, world);
      world := w;
      Inherit(n.action, n.inner.ignore, ignore);
      var retval := EXECUTION_SUCCESS;
      while list != []
        invariant Valid() && fresh(stored - old(stored)) && Signals(Normal)
        invariant Fits(env.errexit, n.action, ignore) && n.inner.ignore == old(n.inner.ignore)
        invariant loop_level == level + 1 && return_catch_flag == catches
        invariant ExecFor(env, fuel, n.name, list, Erase(n.action), ignore, level + 1, inFn, retval, St()) == o
        decreases |list|
      {
        var leave;
        r, leave := ExecuteForTurn(n, list, ignore, level, retval, fuel, Cells(n.action));
        if !r.Fell? {
          ForParts(n, ignore);
          return;
        }
        retval := r.status;
        if leave {
          break;
        }
        list := list[1..];
      }
      if list == [] {
        ForTurn(env, fuel, n.name, list, Erase(n.action), ignore, level + 1, inFn, retval, St());
      }
      ForParts(n, ignore);
      loop_level := loop_level - 1;
      r := Fell(retval);
    }

    /** One turn of execute_for_command's loop. */
    method ExecuteForTurn(n: Node<Cell>, list: seq<string>, ghost ignore: bool, ghost level: nat, ghost retval: int,
          fuel: nat, ghost actions: set<Cell>)
      returns (r: Jump, leave: bool)
      requires n.For? && list != [] && actions == Cells(n.action) && actions !! stored
      requires Valid() && Signals(Normal) && loop_level == level + 1 && Fits(env.errexit, n.action, ignore)
      modifies this, actions
      ensures Valid() && fresh(stored - old(stored)) && Fits(env.errexit, n.action, ignore)
      ensures var o := ExecFor(env, fuel, n.name, list, Erase(n.action), ignore, level + 1,
              old(return_catch_flag) > 0, retval, old(St()));
              && (!r.Fell? ==> !o.Ended? && Agrees(r, o, level, return_catch_flag))
              && (r.Fell? ==> loop_level == level + 1 && return_catch_flag == old(return_catch_flag))
              && (r.Fell? && leave ==> o.Ended? && o.status == r.status && o.st == St() && Signals(o.signal))
              && (r.Fell? && !leave ==>
                    Signals(Normal)
                    && o == ExecFor(env, fuel, n.name, list[1..], Erase(n.action), ignore, level + 1,
                        old(return_catch_flag) > 0, r.status, St()))
      decreases fuel, n, 0
    {
      hide Exec, ExecNode, ExecFor, Sane, Sits, NodeSits, Cells, NodeCells, Erase, EraseNode, Erased, Untouched;
      ghost var inFn := return_catch_flag > 0;
      ForTurn(env, fuel, n.name, list, Erase(n.action), ignore, level + 1, inFn, retval, St());
      var bound := env.oracle.bind(n.name, list[0], world);
      if !bound.Some? {
        return Fell(EXECUTION_FAILURE), true;
      }
      world := bound.value;
      ghost var st := St();
      Signalled(env, fuel, n.action, ignore, level + 1, inFn, st);
      leave := true;
      r := Execute(n.action, ignore, fuel, actions);
      if r.Fell? {
        leave := LeaveLoop(Exec(env, fuel, Erase(n.action), ignore, level + 1, inFn, st).signal);
      }
    }

    /** Whether a clause's pattern matches. */
    method PatternMatches(patterns: seq<nat>, word: string) returns (found: bool)
      ensures found <==> AnyMatches(env, patterns, word, world)
    {
      for k := 0 to |patterns|
        invariant forall j :: 0 <= j < k ==> !env.oracle.matches(patterns[j], word, world)
      {
        if env.oracle.matches(patterns[k], word, world) {
          return true;
        }
      }
      found := false;
    }

    /** execute_case_command */
    method ExecuteCase(n: Node<Cell>, ghost ignore: bool, fuel: nat, ghost own: set<Cell>) returns (r: Jump)
      requires own == NodeCells(n) && own !! stored && Valid() && NodeSits(n, ignore) && Signals(Normal)
      requires n.Case? && (env.errexit ==> n.inner.ignore == ignore)
      modifies this, own
      ensures Valid() && fresh(stored - old(stored)) && NodeSits(n, ignore)
      ensures Agrees(r, ExecNode(env, fuel, EraseNode(n), ignore, old(loop_level), old(return_catch_flag) > 0,
              old(St())), old(loop_level), old(return_catch_flag))
      decreases fuel, n, 1
    {
      hide Exec, ExecNode, ExecCase, ExecActions, Sane, Sits, ClausesSit, NodeSits, Cells, NodeCells, ClausesCells,
          Erase, EraseNode, EraseClauses, Erased, Untouched;
      ghost var level, inFn, catches := loop_level, return_catch_flag > 0, return_catch_flag;
      ghost var o := ExecNode(env, fuel, EraseNode(n), ignore, level, inFn, St());
      CaseMeans(env, fuel, n, ignore, level, inFn, St());
      CaseParts(n, ignore);
      var (word, w) := env.oracle.subject(n.subject, last_command_exit_value, world);
      world := w;
      var retval, clauses := EXECUTION_SUCCESS, n.clauses;
      while clauses.Clause?
        invariant Valid() && fresh(stored - old(stored)) && loop_level == level && return_catch_flag == catches
        invariant Suffix(clauses, n.clauses) && ClausesSit(n.clauses, ignore) && n.inner.ignore == old(n.inner.ignore)
        invariant if Signals(Normal)
                  then ExecCase(env, fuel, word, EraseClauses(clauses), ignore, level, inFn, retval, St()) == o
                  else Stuck(o) && retval == last_command_exit_value
        decreases clauses
      {
        ClauseTurn(env, fuel, word, clauses, ignore, level, inFn, retval, St());
        var found := PatternMatches(clauses.patterns, word);
        if found {
          r, clauses := ExecuteActions(n, clauses, word, ignore, fuel, o, ClausesCells(n.clauses));
          if !r.Fell? {
            CaseParts(n, ignore);
            return;
          }
          retval := r.status;
          if !clauses.after.TestNext? {
            CaseParts(n, ignore);
            return;
          }
        }
        SuffixRest(clauses, n.clauses);
        clauses := clauses.rest;
      }
      ClauseTurn(env, fuel, word, clauses, ignore, level, inFn, retval, St());
      CaseParts(n, ignore);
      r := Fell(retval);
    }

    /** The do-loop of execute_case_command: the actions from a clause that matched, up to the last that is run. */
    method ExecuteActions(n: Node<Cell>, first: Clauses<Cell>, ghost word: string, ghost ignore: bool, fuel: nat,
          ghost o: Outcome<W>, ghost own: set<Cell>)
      returns (r: Jump, clauses: Clauses<Cell>)
      requires n.Case? && own == ClausesCells(n.clauses) && own !! stored && n.inner !in own && Valid()
      requires first.Clause? && Suffix(first, n.clauses) && ClausesSit(n.clauses, ignore)
      requires (n.inner.ignore ==> ignore) && (env.errexit ==> n.inner.ignore == ignore)
      requires if Signals(Normal)
               then ExecActions(env, fuel, word, EraseClauses(first), ignore, loop_level, return_catch_flag > 0, St())
               == o
               else Stuck(o)
      modifies this, own
      ensures Valid() && fresh(stored - old(stored)) && ClausesSit(n.clauses, ignore)
      ensures clauses.Clause? && Suffix(clauses, n.clauses) && (clauses == first || clauses < first)
      ensures !r.Fell? ==> !o.Ended? && Agrees(r, o, old(loop_level), old(return_catch_flag))
      ensures r.Fell? ==> loop_level == old(loop_level) && return_catch_flag == old(return_catch_flag)
      ensures r.Fell? && !Signals(Normal) ==> Stuck(o) && r.status == last_command_exit_value
      ensures r.Fell? && Signals(Normal) ==>
                o == if clauses.after.TestNext?
                     then ExecCase(env, fuel, word, EraseClauses(clauses.rest), ignore, loop_level,
                         return_catch_flag > 0, r.status, St())
                     else Ended(Normal, r.status, St())
      decreases fuel, n, 0
    {
      hide Exec, ExecNode, ExecCase, ExecActions, Sane, Sits, ClausesSit, NodeSits, Cells, NodeCells, ClausesCells,
          Erase, EraseNode, EraseClauses, Erased, Untouched;
      ghost var level, inFn, catches := loop_level, return_catch_flag > 0, return_catch_flag;
      clauses := first;
      while true
        invariant Valid() && fresh(stored - old(stored)) && ClausesSit(n.clauses, ignore)
                  && n.inner.ignore == old(n.inner.ignore)
        invariant clauses.Clause? && Suffix(clauses, n.clauses) && (clauses == first || clauses < first)
        invariant loop_level == level && return_catch_flag == catches
        invariant if Signals(Normal)
                  then ExecActions(env, fuel, word, EraseClauses(clauses), ignore, level, inFn, St()) == o else Stuck(o)
        decreases clauses
      {
        ActionTurn(env, fuel, word, clauses, ignore, level, inFn, St());
        Signalled(env, fuel, clauses.action, ignore, level, inFn, St());
        SuffixSmaller(clauses, n.clauses);
        r := ExecuteAction(n, clauses, ignore, fuel, own);
        if !r.Fell? {
          return;
        }
        if clauses.after.FallThrough? && clauses.rest.Clause? {
          SuffixRest(clauses, n.clauses);
          clauses := clauses.rest;
        } else {
          return;
        }
      }
    }

    /** The action of one clause. */
    method ExecuteAction(n: Node<Cell>, l: Clauses<Cell>, ghost ignore: bool, fuel: nat,
          ghost own: set<Cell>) returns (r: Jump)
      requires n.Case? && own == ClausesCells(n.clauses) && own !! stored && n.inner !in own && Valid()
      requires l.Clause? && Suffix(l, n.clauses) && ClausesSit(n.clauses, ignore)
      requires (n.inner.ignore ==> ignore) && (env.errexit ==> n.inner.ignore == ignore)
      modifies this, own
      ensures Valid() && fresh(stored - old(stored)) && ClausesSit(n.clauses, ignore)
      ensures old(Signals(Normal)) ==>
                Agrees(r, Exec(env, fuel, Erase(l.action), ignore, old(loop_level), old(return_catch_flag) > 0,
                    old(St())),
                       old(loop_level), old(return_catch_flag))
      ensures !old(Signals(Normal)) ==>
                r == Fell(last_command_exit_value) && St() == old(St()) && loop_level == old(loop_level)
                && return_catch_flag == old(return_catch_flag) && breaking == old(breaking)
                    && continuing == old(continuing)
      decreases fuel, l, 0
    {
      hide Exec, ExecNode, ExecCase, ExecActions, Sane, Sits, ClausesSit, NodeSits, Cells, NodeCells, ClausesCells,
          Erase, EraseNode, EraseClauses, Erased, Untouched;
      SuffixSits(l, n.clauses, ignore);
      ClauseParts(l, ignore);
      Inherit(l.action, n.inner.ignore, ignore);
      r := Execute(l.action, ignore, fuel, Cells(l.action));
      SuffixKept(n.clauses, l, ignore);
    }
  }
}
