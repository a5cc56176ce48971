/** Commands as the parser leaves them: trees whose flags are cells that running them may set. */
module CommandTree {
  import opened ControlSemantics

  /** The CMD_IGNORE_RETURN bit of a command's flags. */
  class Cell {
    var ignore: bool

    constructor (ignore: bool)
      ensures this.ignore == ignore
    {
      this.ignore := ignore;
    }
  }

  type Tree = Command<Cell>

  // ---------- the cells of a tree ----------

  ghost function Cells(c: Tree): set<Cell> {
    if c.Null? then {} else {c.flags} + NodeCells(c.node)
  }

  ghost function NodeCells(n: Node<Cell>): set<Cell> {
    match n
    case Simple(inner, _) => {inner}
    case FunctionDef(_, body) => Cells(body)
    case Group(body) => Cells(body)
    case List(first, second) => Cells(first) + Cells(second)
    case AndOr(_, first, second) => Cells(first) + Cells(second)
    case If(inner, test, yes, no) => {inner} + Cells(test) + Cells(yes) + Cells(no)
    case While(inner, _, test, action) => {inner} + Cells(test) + Cells(action)
    case For(inner, _, _, action) => {inner} + Cells(action)
    case Case(inner, _, clauses) => {inner} + ClausesCells(clauses)
  }

  ghost function ClausesCells(l: Clauses<Cell>): set<Cell> {
    if l.NoClause? then {} else Cells(l.action) + ClausesCells(l.rest)
  }

  /** No cell is shared. */
  ghost predicate Distinct(c: Tree) {
    c.Command? ==> c.flags !in NodeCells(c.node) && NodeDistinct(c.node)
  }

  ghost predicate NodeDistinct(n: Node<Cell>) {
    match n
    case Simple(_, _) => true
    case FunctionDef(_, body) => Distinct(body)
    case Group(body) => Distinct(body)
    case List(first, second) => Distinct(first) && Distinct(second) && Cells(first) !! Cells(second)
    case AndOr(_, first, second) => Distinct(first) && Distinct(second) && Cells(first) !! Cells(second)
    case If(inner, test, yes, no) =>
      && Distinct(test) && Distinct(yes) && Distinct(no)
      && {inner} !! Cells(test) && {inner} !! Cells(yes) && {inner} !! Cells(no)
      && Cells(test) !! Cells(yes) && Cells(test) !! Cells(no) && Cells(yes) !! Cells(no)
    case While(inner, _, test, action) =>
      Distinct(test) && Distinct(action) && {inner} !! Cells(test) && {inner} !! Cells(action)
          && Cells(test) !! Cells(action)
    case For(inner, _, _, action) => Distinct(action) && {inner} !! Cells(action)
    case Case(inner, _, clauses) => ClausesDistinct(clauses) && {inner} !! ClausesCells(clauses)
  }

  ghost predicate ClausesDistinct(l: Clauses<Cell>) {
    l.Clause? ==> Distinct(l.action) && ClausesDistinct(l.rest) && Cells(l.action) !! ClausesCells(l.rest)
  }

  // ---------- trees without flags, and with the flags they have now ----------

  function Erase<F>(c: Command<F>): (r: Command<()>)
    ensures r.Null? == c.Null?
  {
    if c.Null? then Null else Command((), c.invert, EraseNode(c.node))
  }

  function EraseNode<F>(n: Node<F>): Node<()> {
    match n
    case Simple(_, words) => Simple((), words)
    case FunctionDef(name, body) => FunctionDef(name, Erase(body))
    case Group(body) => Group(Erase(body))
    case List(first, second) => List(Erase(first), Erase(second))
    case AndOr(and, first, second) => AndOr(and, Erase(first), Erase(second))
    case If(_, test, yes, no) => If((), Erase(test), Erase(yes), Erase(no))
    case While(_, until, test, action) => While((), until, Erase(test), Erase(action))
    case For(_, name, words, action) => For((), name, words, Erase(action))
    case Case(_, subject, clauses) => Case((), subject, EraseClauses(clauses))
  }

  function EraseClauses<F>(l: Clauses<F>): (r: Clauses<()>)
    ensures r.NoClause? == l.NoClause?
  {
    if l.NoClause? then NoClause else Clause(l.patterns, Erase(l.action), l.after, EraseClauses(l.rest))
  }

  lemma Nothing(u: ())
    ensures u == ()
  {
  }

  /** Erasing takes the flags away and nothing else. */
  lemma {:induction false} EraseIsAll(c: Command<()>)
    ensures Erase(c) == c
    decreases c
  {
    if c.Command? {
      Nothing(c.flags);
      EraseNodeIsAll(c.node);
    }
  }

  lemma {:induction false} EraseNodeIsAll(n: Node<()>)
    ensures EraseNode(n) == n
    decreases n
  {
    match n
    case Simple(inner, _) => Nothing(inner);
    case FunctionDef(_, body) => EraseIsAll(body);
    case Group(body) => EraseIsAll(body);
    case List(first, second) =>
      EraseIsAll(first);
      EraseIsAll(second);
    case AndOr(_, first, second) =>
      EraseIsAll(first);
      EraseIsAll(second);
    case If(inner, test, yes, no) =>
      Nothing(inner);
      EraseIsAll(test);
      EraseIsAll(yes);
      EraseIsAll(no);
    case While(inner, _, test, action) =>
      Nothing(inner);
      EraseIsAll(test);
      EraseIsAll(action);
    case For(inner, _, _, action) =>
      Nothing(inner);
      EraseIsAll(action);
    case Case(inner, _, clauses) =>
      Nothing(inner);
      EraseClausesIsAll(clauses);
  }

  lemma {:induction false} EraseClausesIsAll(l: Clauses<()>)
    ensures EraseClauses(l) == l
    decreases l
  {
    if l.Clause? {
      EraseIsAll(l.action);
      EraseClausesIsAll(l.rest);
    }
  }

  /** The tree with the flags that it has now. */
  ghost function Frozen(c: Tree): Command<bool>
    reads Cells(c)
  {
    if c.Null? then Null else Command(c.flags.ignore, c.invert, FrozenNode(c.node))
  }

  ghost function FrozenNode(n: Node<Cell>): Node<bool>
    reads NodeCells(n)
  {
    match n
    case Simple(inner, words) => Simple(inner.ignore, words)
    case FunctionDef(name, body) => FunctionDef(name, Frozen(body))
    case Group(body) => Group(Frozen(body))
    case List(first, second) => List(Frozen(first), Frozen(second))
    case AndOr(and, first, second) => AndOr(and, Frozen(first), Frozen(second))
    case If(inner, test, yes, no) => If(inner.ignore, Frozen(test), Frozen(yes), Frozen(no))
    case While(inner, until, test, action) => While(inner.ignore, until, Frozen(test), Frozen(action))
    case For(inner, name, words, action) => For(inner.ignore, name, words, Frozen(action))
    case Case(inner, subject, clauses) => Case(inner.ignore, subject, FrozenClauses(clauses))
  }

  ghost function FrozenClauses(l: Clauses<Cell>): Clauses<bool>
    reads ClausesCells(l)
  {
    if l.NoClause? then NoClause else Clause(l.patterns, Frozen(l.action), l.after, FrozenClauses(l.rest))
  }

  /** A flag is set only where failures are ignored: with `ignore` in c as a whole, and in tests, first
      operands and what is negated. The body of a function definition has no flag set. */
  predicate Sound(c: Command<bool>, ignore: bool) {
    c.Command? ==> (c.flags ==> ignore || c.invert) && NodeSound(c.node, ignore || c.invert)
  }

  predicate NodeSound(n: Node<bool>, ignore: bool) {
    match n
    case Simple(inner, _) => inner ==> ignore
    case FunctionDef(_, body) => Clear(body)
    case Group(body) => Sound(body, ignore)
    case List(first, second) => Sound(first, ignore) && Sound(second, ignore)
    case AndOr(_, first, second) => Sound(first, true) && Sound(second, ignore)
    case If(inner, test, yes, no) => (inner ==> ignore) && Sound(test, true) && Sound(yes, ignore) && Sound(no, ignore)
    case While(inner, _, test, action) => (inner ==> ignore) && Sound(test, true) && Sound(action, ignore)
    case For(inner, _, _, action) => (inner ==> ignore) && Sound(action, ignore)
    case Case(inner, _, clauses) => (inner ==> ignore) && ClausesSound(clauses, ignore)
  }

  predicate ClausesSound(l: Clauses<bool>, ignore: bool) {
    l.Clause? ==> Sound(l.action, ignore) && ClausesSound(l.rest, ignore)
  }

  /** No flag is set. */
  predicate Clear(c: Command<bool>) {
    c.Command? ==> !c.flags && NodeClear(c.node)
  }

  predicate NodeClear(n: Node<bool>) {
    match n
    case Simple(inner, _) => !inner
    case FunctionDef(_, body) => Clear(body)
    case Group(body) => Clear(body)
    case List(first, second) => Clear(first) && Clear(second)
    case AndOr(_, first, second) => Clear(first) && Clear(second)
    case If(inner, test, yes, no) => !inner && Clear(test) && Clear(yes) && Clear(no)
    case While(inner, _, test, action) => !inner && Clear(test) && Clear(action)
    case For(inner, _, _, action) => !inner && Clear(action)
    case Case(inner, _, clauses) => !inner && ClausesClear(clauses)
  }

  predicate ClausesClear(l: Clauses<bool>) {
    l.Clause? ==> Clear(l.action) && ClausesClear(l.rest)
  }

  /** A tree with no flag set may be run anywhere. */
  lemma {:induction false} ClearIsSound(c: Command<bool>, ignore: bool)
    requires Clear(c)
    ensures Sound(c, ignore)
  {
    if c.Command? {
      NodeClearIsSound(c.node, ignore || c.invert);
    }
  }

  lemma {:induction false} NodeClearIsSound(n: Node<bool>, ignore: bool)
    requires NodeClear(n)
    ensures NodeSound(n, ignore)
  {
    match n
    case Simple(_, _) =>
    case FunctionDef(_, _) =>
    case Group(body) => ClearIsSound(body, ignore);
    case List(first, second) => ClearIsSound(first, ignore); ClearIsSound(second, ignore);
    case AndOr(_, first, second) => ClearIsSound(first, true); ClearIsSound(second, ignore);
    case If(_, test, yes, no) => ClearIsSound(test, true); ClearIsSound(yes, ignore); ClearIsSound(no, ignore);
    case While(_, _, test, action) => ClearIsSound(test, true); ClearIsSound(action, ignore);
    case For(_, _, _, action) => ClearIsSound(action, ignore);
    case Case(_, _, clauses) => ClausesClearIsSound(clauses, ignore);
  }

  lemma {:induction false} ClausesClearIsSound(l: Clauses<bool>, ignore: bool)
    requires ClausesClear(l)
    ensures ClausesSound(l, ignore)
  {
    if l.Clause? {
      ClearIsSound(l.action, ignore);
      ClausesClearIsSound(l.rest, ignore);
    }
  }

  // ---------- trees that may be run ----------

  /** c may be run where failures are ignored, or not. */
  ghost predicate Sits(c: Tree, ignore: bool)
    reads Cells(c)
  {
    Distinct(c) && Sound(Frozen(c), ignore)
  }

  /** Under `set -e` the flag of c also tells which, unless c is negated. */
  ghost predicate Fits(errexit: bool, c: Tree, ignore: bool)
    reads Cells(c)
  {
    Sits(c, ignore) && (errexit && c.Command? && !c.invert ==> c.flags.ignore == ignore)
  }

  ghost predicate NodeSits(n: Node<Cell>, ignore: bool)
    reads NodeCells(n)
  {
    NodeDistinct(n) && NodeSound(FrozenNode(n), ignore)
  }

  ghost predicate ClausesSit(l: Clauses<Cell>, ignore: bool)
    reads ClausesCells(l)
  {
    ClausesDistinct(l) && ClausesSound(FrozenClauses(l), ignore)
  }

  lemma CommandParts(c: Tree, ignore: bool)
    requires c.Command?
    ensures Sits(c, ignore) <==>
              c.flags !in NodeCells(c.node) && (c.flags.ignore ==> ignore || c.invert)
                  && NodeSits(c.node, ignore || c.invert)
    ensures Cells(c) == {c.flags} + NodeCells(c.node)
  {
    hide NodeDistinct, NodeSound, FrozenNode, NodeCells;
  }

  lemma PairParts(n: Node<Cell>, ignore: bool)
    requires n.List? || n.AndOr?
    ensures NodeSits(n, ignore) <==>
              Sits(n.first, ignore || n.AndOr?) && Sits(n.second, ignore) && Cells(n.first) !! Cells(n.second)
    ensures NodeCells(n) == Cells(n.first) + Cells(n.second)
  {
    hide Distinct, Sound, Frozen, Cells;
  }

  lemma IfParts(n: Node<Cell>, ignore: bool)
    requires n.If?
    ensures NodeSits(n, ignore) <==>
              && Sits(n.test, true) && Sits(n.yes, ignore) && Sits(n.no, ignore) && (n.inner.ignore ==> ignore)
              && n.inner !in Cells(n.test) && n.inner !in Cells(n.yes) && n.inner !in Cells(n.no)
              && Cells(n.test) !! Cells(n.yes) && Cells(n.test) !! Cells(n.no) && Cells(n.yes) !! Cells(n.no)
    ensures NodeCells(n) == {n.inner} + Cells(n.test) + Cells(n.yes) + Cells(n.no)
  {
    hide Distinct, Sound, Frozen, Cells;
  }

  lemma WhileParts(n: Node<Cell>, ignore: bool)
    requires n.While?
    ensures NodeSits(n, ignore) <==>
              && Sits(n.test, true) && Sits(n.action, ignore) && (n.inner.ignore ==> ignore)
              && n.inner !in Cells(n.test) && n.inner !in Cells(n.action) && Cells(n.test) !! Cells(n.action)
    ensures NodeCells(n) == {n.inner} + Cells(n.test) + Cells(n.action)
  {
    hide Distinct, Sound, Frozen, Cells;
  }

  lemma ForParts(n: Node<Cell>, ignore: bool)
    requires n.For?
    ensures NodeSits(n, ignore)
            <==> Sits(n.action, ignore) && (n.inner.ignore ==> ignore) && n.inner !in Cells(n.action)
    ensures NodeCells(n) == {n.inner} + Cells(n.action)
  {
    hide Distinct, Sound, Frozen, Cells;
  }

  lemma CaseParts(n: Node<Cell>, ignore: bool)
    requires n.Case?
    ensures NodeSits(n, ignore) <==>
              ClausesSit(n.clauses, ignore) && (n.inner.ignore ==> ignore) && n.inner !in ClausesCells(n.clauses)
    ensures NodeCells(n) == {n.inner} + ClausesCells(n.clauses)
  {
    hide ClausesDistinct, ClausesSound, FrozenClauses, ClausesCells;
  }

  lemma ClauseParts(l: Clauses<Cell>, ignore: bool)
    requires l.Clause?
    ensures ClausesSit(l, ignore)
            <==> Sits(l.action, ignore) && ClausesSit(l.rest, ignore) && Cells(l.action) !! ClausesCells(l.rest)
    ensures ClausesCells(l) == Cells(l.action) + ClausesCells(l.rest)
  {
    hide Distinct, Sound, Frozen, Cells;
  }

  lemma LeafParts(n: Node<Cell>, ignore: bool)
    ensures n.Simple? ==> (NodeSits(n, ignore) <==> (n.inner.ignore ==> ignore)) && NodeCells(n) == {n.inner}
    ensures n.FunctionDef?
            ==> (NodeSits(n, ignore) <==> Distinct(n.body) && Clear(Frozen(n.body))) && NodeCells(n) == Cells(n.body)
    ensures n.Group? ==> (NodeSits(n, ignore) <==> Sits(n.body, ignore)) && NodeCells(n) == Cells(n.body)
  {
    hide Distinct, Sound, Frozen, Cells;
  }

  // ---------- copy_command ----------

  /** A copy with cells of its own, which have the same flags; the original is not touched. */
  method Copy(c: Tree, ghost own: set<Cell>) returns (r: Tree, ghost cells: set<Cell>)
    requires own == Cells(c)
    ensures cells == Cells(r) && fresh(cells) && Distinct(r) && Frozen(r) == Frozen(c) && Erase(r) == Erase(c)
  {
    if c.Null? {
      r, cells := Null, {};
    } else {
      var node, inside := CopyNode(c.node, NodeCells(c.node));
      var flags := new Cell(c.flags.ignore);
      r, cells := Command(flags, c.invert, node), {flags} + inside;
    }
  }

  method CopyNode(n: Node<Cell>, ghost own: set<Cell>) returns (r: Node<Cell>, ghost cells: set<Cell>)
    requires own == NodeCells(n)
    ensures cells == NodeCells(r) && fresh(cells) && NodeDistinct(r)
    ensures FrozenNode(r) == FrozenNode(n) && EraseNode(r) == EraseNode(n)
    decreases n, 1
  {
    match n
    case Simple(inner, words) =>
      var i := new Cell(inner.ignore);
      r, cells := Simple(i, words), {i};
    case FunctionDef(name, body) =>
      var b, s := Copy(body, Cells(body));
      r, cells := FunctionDef(name, b), s;
    case Group(body) =>
      var b, s := Copy(body, Cells(body));
      r, cells := Group(b), s;
    case List(_, _) =>
      r, cells := CopyConnection(n, own);
    case AndOr(_, _, _) =>
      r, cells := CopyConnection(n, own);
    case If(_, _, _, _) =>
      r, cells := CopyIf(n, own);
    case While(_, _, _, _) =>
      r, cells := CopyWhile(n, own);
    case For(inner, name, words, action) =>
      var b, s := Copy(action, Cells(action));
      var i := new Cell(inner.ignore);
      r, cells := For(i, name, words, b), {i} + s;
    case Case(inner, subject, clauses) =>
      var l, s := CopyClauses(clauses, ClausesCells(clauses));
      var i := new Cell(inner.ignore);
      r, cells := Case(i, subject, l), {i} + s;
  }

  method CopyConnection(n: Node<Cell>, ghost own: set<Cell>) returns (r: Node<Cell>, ghost cells: set<Cell>)
    requires (n.List? || n.AndOr?) && own == NodeCells(n)
    ensures cells == NodeCells(r) && fresh(cells) && NodeDistinct(r)
    ensures FrozenNode(r) == FrozenNode(n) && EraseNode(r) == EraseNode(n)
    decreases n, 0
  {
    var a, s := Copy(n.first, Cells(n.first));
    var b, t := Copy(n.second, Cells(n.second));
    r, cells := if n.List? then List(a, b) else AndOr(n.and, a, b), s + t;
  }

  method CopyWhile(n: Node<Cell>, ghost own: set<Cell>) returns (r: Node<Cell>, ghost cells: set<Cell>)
    requires n.While? && own == NodeCells(n)
    ensures r.While? && cells == NodeCells(r) && fresh(cells) && NodeDistinct(r)
    ensures FrozenNode(r) == FrozenNode(n) && EraseNode(r) == EraseNode(n)
    decreases n, 0
  {
    var a, s := Copy(n.test, Cells(n.test));
    var b, t := Copy(n.action, Cells(n.action));
    var i := new Cell(n.inner.ignore);
    r, cells := While(i, n.until, a, b), {i} + s + t;
  }

  method CopyIf(n: Node<Cell>, ghost own: set<Cell>) returns (r: Node<Cell>, ghost cells: set<Cell>)
    requires n.If? && own == NodeCells(n)
    ensures r.If? && cells == NodeCells(r) && fresh(cells) && NodeDistinct(r)
    ensures FrozenNode(r) == FrozenNode(n) && EraseNode(r) == EraseNode(n)
    decreases n, 0
  {
    var a, s := Copy(n.test, Cells(n.test));
    var b, t := Copy(n.yes, Cells(n.yes));
    var d, u := Copy(n.no, Cells(n.no));
    var i := new Cell(n.inner.ignore);
    r, cells := If(i, a, b, d), {i} + s + t + u;
  }

  method CopyClauses(l: Clauses<Cell>, ghost own: set<Cell>) returns (r: Clauses<Cell>, ghost cells: set<Cell>)
    requires own == ClausesCells(l)
    ensures cells == ClausesCells(r) && fresh(cells) && ClausesDistinct(r)
    ensures FrozenClauses(r) == FrozenClauses(l) && EraseClauses(r) == EraseClauses(l)
  {
    if l.NoClause? {
      r, cells := NoClause, {};
    } else {
      var action, s := Copy(l.action, Cells(l.action));
      var rest, t := CopyClauses(l.rest, ClausesCells(l.rest));
      r, cells := Clause(l.patterns, action, l.after, rest), s + t;
    }
  }
}
