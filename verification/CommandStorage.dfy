/** Copying a command and disposing of it (copy_cmd.c, dispose_cmd.c): every structure and string that a copy
    allocates, and every one that is freed, block by block. */
module CommandStorage {
  import opened Wrappers

  // ---------- commands as structures in memory ----------

  /** A string and a word; B is what stands for the blocks of memory that they are in. */
  datatype Text<B> = Text(cell: B, s: string)
  datatype Word<B> = Word(cell: B, text: Text<B>, flags: int)
  datatype Words<B> = NoWords | Words(cell: B, word: Word<B>, next: Words<B>)

  datatype Instruction =
    | OutputDirection | InputDirection | InputaDirection | AppendingTo | ReadingUntil | ReadingString
    | DuplicatingInput | DuplicatingOutput | DeblankReadingUntil | CloseThis | ErrAndOut | InputOutput | OutputForce
    | DuplicatingInputWord | DuplicatingOutputWord | MoveInput | MoveOutput | MoveInputWord | MoveOutputWord
    | AppendErrAndOut

  /** The union REDIRECTEE. */
  datatype Target<B> = Dest(n: int) | File(word: Word<B>)

  datatype Redirects<B> =
    | NoRedirects
    | Redirect(cell: B, redirector: Target<B>, varassign: bool, flags: int, instruction: Instruction,
               redirectee: Target<B>, here_doc_eof: Option<Text<B>>, next: Redirects<B>)

  datatype Cond<B> = NoCond | Cond(cell: B, flags: int, kind: int, op: Option<Word<B>>, left: Cond<B>, right: Cond<B>)

  datatype Command<B> = NoCommand | Command(cell: B, flags: int, line: int, redirects: Redirects<B>, value: Value<B>)

  datatype Patterns<B> = NoPatterns | Pattern(cell: B, patterns: Words<B>, action: Command<B>, flags: int,
      next: Patterns<B>)

  datatype Value<B> =
    | For(cell: B, flags: int, select: bool, name: Word<B>, map_list: Words<B>, action: Command<B>)
    | ArithFor(cell: B, flags: int, init: Words<B>, test: Words<B>, step: Words<B>, action: Command<B>)
    | Group(cell: B, command: Command<B>)
    | Subshell(cell: B, flags: int, command: Command<B>)
    | Coproc(cell: B, flags: int, coproc: Text<B>, command: Command<B>)
    | Case(cell: B, flags: int, word: Word<B>, clauses: Patterns<B>)
    | While(cell: B, flags: int, until: bool, condition: Command<B>, action: Command<B>)
    | If(cell: B, flags: int, condition: Command<B>, true_case: Command<B>, false_case: Command<B>)
    | Simple(cell: B, flags: int, words: Words<B>, redirects: Redirects<B>)
    | Connection(cell: B, connector: int, first: Command<B>, second: Command<B>)
    | Arith(cell: B, flags: int, exp: Words<B>)
    | Conditional(cond: Cond<B>)
    | FunctionDef(cell: B, flags: int, name: Word<B>, command: Command<B>, source_file: Option<Text<B>>)

  // ---------- which fields hold pointers ----------

  predicate HereDocument(i: Instruction) {
    i == ReadingUntil || i == DeblankReadingUntil
  }

  predicate HasFile(i: Instruction) {
    i !in {DuplicatingInput, DuplicatingOutput, MoveInput, MoveOutput, CloseThis}
  }

  /** The flag of a redirection and its instruction tell which of its fields are words. */
  predicate RedirectsOk<B>(r: Redirects<B>) {
    r.Redirect? ==>
      && (r.redirector.File? <==> r.varassign) && (r.redirectee.File? <==> HasFile(r.instruction))
      && (r.here_doc_eof.Some? ==> HereDocument(r.instruction)) && RedirectsOk(r.next)
  }

  predicate CommandOk<B>(c: Command<B>) {
    c.Command? ==> RedirectsOk(c.redirects) && ValueOk(c.value)
  }

  predicate PatternsOk<B>(p: Patterns<B>) {
    p.Pattern? ==> CommandOk(p.action) && PatternsOk(p.next)
  }

  predicate ValueOk<B>(v: Value<B>) {
    match v
    case For(_, _, _, _, _, action) => CommandOk(action)
    case ArithFor(_, _, _, _, _, action) => CommandOk(action)
    case Group(_, command) => CommandOk(command)
    case Subshell(_, _, command) => CommandOk(command)
    case Coproc(_, _, _, command) => CommandOk(command)
    case Case(_, _, _, clauses) => PatternsOk(clauses)
    case While(_, _, _, condition, action) => CommandOk(condition) && CommandOk(action)
    case If(_, _, condition, true_case, false_case) => CommandOk(condition) && CommandOk(true_case)
        && CommandOk(false_case)
    case Simple(_, _, _, redirects) => RedirectsOk(redirects)
    case Connection(_, _, first, second) => CommandOk(first) && CommandOk(second)
    case FunctionDef(_, _, _, command, _) => CommandOk(command)
    case _ => true
  }

  // ---------- the blocks of a structure ----------

  type Block = nat

  function OfText(t: Text<Block>): multiset<Block> {
    multiset{t.cell}
  }

  function OfTextIfAny(t: Option<Text<Block>>): multiset<Block> {
    if t.Some? then OfText(t.value) else multiset{}
  }

  function OfWord(w: Word<Block>): multiset<Block> {
    OfText(w.text) + multiset{w.cell}
  }

  function OfWords(l: Words<Block>): multiset<Block> {
    if l.NoWords? then multiset{} else OfWord(l.word) + multiset{l.cell} + OfWords(l.next)
  }

  function OfTarget(t: Target<Block>): multiset<Block> {
    if t.File? then OfWord(t.word) else multiset{}
  }

  function OfRedirects(r: Redirects<Block>): multiset<Block> {
    if r.NoRedirects? then multiset{}
    else
      OfTarget(r.redirector) + OfTextIfAny(r.here_doc_eof) + OfTarget(r.redirectee) + multiset{r.cell}
      + OfRedirects(r.next)
  }

  function OfCond(c: Cond<Block>): multiset<Block> {
    if c.NoCond? then multiset{}
    else OfCond(c.left) + OfCond(c.right) + (if c.op.Some? then OfWord(c.op.value) else multiset{}) + multiset{c.cell}
  }

  function OfCommand(c: Command<Block>): multiset<Block> {
    if c.NoCommand? then multiset{} else OfRedirects(c.redirects) + OfValue(c.value) + multiset{c.cell}
  }

  function OfPatterns(p: Patterns<Block>): multiset<Block> {
    if p.NoPatterns? then multiset{}
        else OfWords(p.patterns) + OfCommand(p.action) + multiset{p.cell} + OfPatterns(p.next)
  }

  function OfValue(v: Value<Block>): multiset<Block> {
    match v
    case For(cell, _, _, name, map_list, action) => OfWord(name) + OfWords(map_list) + OfCommand(action)
        + multiset{cell}
    case ArithFor(cell, _, init, test, step, action) => OfWords(init) + OfWords(test) + OfWords(step)
        + OfCommand(action) + multiset{cell}
    case Group(cell, command) => OfCommand(command) + multiset{cell}
    case Subshell(cell, _, command) => OfCommand(command) + multiset{cell}
    case Coproc(cell, _, coproc, command) => OfText(coproc) + OfCommand(command) + multiset{cell}
    case Case(cell, _, word, clauses) => OfWord(word) + OfPatterns(clauses) + multiset{cell}
    case While(cell, _, _, condition, action) => OfCommand(condition) + OfCommand(action) + multiset{cell}
    case If(cell, _, condition, yes, no) => OfCommand(condition) + OfCommand(yes) + OfCommand(no) + multiset{cell}
    case Simple(cell, _, words, redirects) => OfWords(words) + OfRedirects(redirects) + multiset{cell}
    case Connection(cell, _, first, second) => OfCommand(first) + OfCommand(second) + multiset{cell}
    case Arith(cell, _, exp) => OfWords(exp) + multiset{cell}
    case Conditional(cond) => OfCond(cond)
    case FunctionDef(cell, _, name, command, source_file) =>
      OfWord(name) + OfCommand(command) + OfTextIfAny(source_file) + multiset{cell}
  }

  // ---------- a structure apart from where it is ----------

  function SameText<B>(t: Text<B>): Text<()> {
    Text((), t.s)
  }

  function SameTextIfAny<B>(t: Option<Text<B>>): Option<Text<()>> {
    if t.Some? then Some(SameText(t.value)) else None
  }

  function SameWord<B>(w: Word<B>): Word<()> {
    Word((), SameText(w.text), w.flags)
  }

  function SameWordIfAny<B>(w: Option<Word<B>>): Option<Word<()>> {
    if w.Some? then Some(SameWord(w.value)) else None
  }

  function SameWords<B>(l: Words<B>): Words<()> {
    if l.NoWords? then NoWords else Words((), SameWord(l.word), SameWords(l.next))
  }

  function SameTarget<B>(t: Target<B>): Target<()> {
    if t.File? then File(SameWord(t.word)) else Dest(t.n)
  }

  function SameRedirects<B>(r: Redirects<B>): Redirects<()> {
    if r.NoRedirects? then NoRedirects
    else Redirect((), SameTarget(r.redirector), r.varassign, r.flags, r.instruction, SameTarget(r.redirectee),
                  SameTextIfAny(r.here_doc_eof), SameRedirects(r.next))
  }

  function SameCond<B>(c: Cond<B>): Cond<()> {
    if c.NoCond? then NoCond else Cond((), c.flags, c.kind, SameWordIfAny(c.op), SameCond(c.left), SameCond(c.right))
  }

  function SameCommand<B>(c: Command<B>): Command<()> {
    if c.NoCommand? then NoCommand else Command((), c.flags, c.line, SameRedirects(c.redirects), SameValue(c.value))
  }

  function SamePatterns<B>(p: Patterns<B>): Patterns<()> {
    if p.NoPatterns? then NoPatterns
        else Pattern((), SameWords(p.patterns), SameCommand(p.action), p.flags, SamePatterns(p.next))
  }

  function SameValue<B>(v: Value<B>): Value<()> {
    match v
    case For(_, flags, select, name, map_list, action) => For((), flags, select, SameWord(name), SameWords(map_list),
        SameCommand(action))
    case ArithFor(_, flags, init, test, step, action) =>
      ArithFor((), flags, SameWords(init), SameWords(test), SameWords(step), SameCommand(action))
    case Group(_, command) => Group((), SameCommand(command))
    case Subshell(_, flags, command) => Subshell((), flags, SameCommand(command))
    case Coproc(_, flags, coproc, command) => Coproc((), flags, SameText(coproc), SameCommand(command))
    case Case(_, flags, word, clauses) => Case((), flags, SameWord(word), SamePatterns(clauses))
    case While(_, flags, until, condition, action) => While((), flags, until, SameCommand(condition),
        SameCommand(action))
    case If(_, flags, condition, yes, no) => If((), flags, SameCommand(condition), SameCommand(yes), SameCommand(no))
    case Simple(_, flags, words, redirects) => Simple((), flags, SameWords(words), SameRedirects(redirects))
    case Connection(_, connector, first, second) => Connection((), connector, SameCommand(first), SameCommand(second))
    case Arith(_, flags, exp) => Arith((), flags, SameWords(exp))
    case Conditional(cond) => Conditional(SameCond(cond))
    case FunctionDef(_, flags, name, command, source_file) =>
      FunctionDef((), flags, SameWord(name), SameCommand(command), SameTextIfAny(source_file))
  }

  // ---------- what the two descriptions leave out ----------

  lemma Nothing(u: ())
    ensures u == ()
  {
  }

  lemma SameTextIsAll(t: Text<()>)
    ensures SameText(t) == t
  {
    Nothing(t.cell);
  }

  lemma SameTextIfAnyIsAll(t: Option<Text<()>>)
    ensures SameTextIfAny(t) == t
  {
    if t.Some? {
      SameTextIsAll(t.value);
    }
  }

  lemma SameWordIsAll(w: Word<()>)
    ensures SameWord(w) == w
  {
    Nothing(w.cell);
    SameTextIsAll(w.text);
  }

  lemma SameTargetIsAll(t: Target<()>)
    ensures SameTarget(t) == t
  {
    if t.File? {
      SameWordIsAll(t.word);
    }
  }

  lemma {:induction false} SameWordsIsAll(l: Words<()>)
    ensures SameWords(l) == l
  {
    if l.Words? {
      Nothing(l.cell);
      SameWordIsAll(l.word);
      SameWordsIsAll(l.next);
    }
  }

  lemma {:induction false} SameRedirectsIsAll(r: Redirects<()>)
    ensures SameRedirects(r) == r
  {
    if r.Redirect? {
      Nothing(r.cell);
      SameTargetIsAll(r.redirector);
      SameTargetIsAll(r.redirectee);
      SameTextIfAnyIsAll(r.here_doc_eof);
      SameRedirectsIsAll(r.next);
    }
  }

  lemma {:induction false} SameCondIsAll(c: Cond<()>)
    ensures SameCond(c) == c
  {
    if c.Cond? {
      Nothing(c.cell);
      if c.op.Some? {
        SameWordIsAll(c.op.value);
      }
      SameCondIsAll(c.left);
      SameCondIsAll(c.right);
    }
  }

  /** Nothing but the places is left out: a structure whose places say nothing is its own description. */
  lemma {:induction false} SameIsAll(c: Command<()>)
    ensures SameCommand(c) == c
    decreases c
  {
    if c.Command? {
      Nothing(c.cell);
      SameRedirectsIsAll(c.redirects);
      SameValueIsAll(c.value);
    }
  }

  lemma {:induction false} SamePatternsIsAll(p: Patterns<()>)
    ensures SamePatterns(p) == p
    decreases p
  {
    if p.Pattern? {
      Nothing(p.cell);
      SameWordsIsAll(p.patterns);
      SameIsAll(p.action);
      SamePatternsIsAll(p.next);
    }
  }

  lemma {:induction false} SameValueIsAll(v: Value<()>)
    ensures SameValue(v) == v
    decreases v
  {
    hide SameWords, SameRedirects, SameCond, SameCommand, SamePatterns, SameWord, SameText;
    if !v.Conditional? {
      Nothing(v.cell);
    }
    match v
    case For(_, _, _, name, map_list, action) =>
      SameWordIsAll(name);
      SameWordsIsAll(map_list);
      SameIsAll(action);
    case ArithFor(_, _, init, test, step, action) =>
      SameWordsIsAll(init);
      SameWordsIsAll(test);
      SameWordsIsAll(step);
      SameIsAll(action);
    case Group(_, command) => SameIsAll(command);
    case Subshell(_, _, command) => SameIsAll(command);
    case Coproc(_, _, coproc, command) =>
      SameTextIsAll(coproc);
      SameIsAll(command);
    case Case(_, _, word, clauses) =>
      SameWordIsAll(word);
      SamePatternsIsAll(clauses);
    case While(_, _, _, condition, action) =>
      SameIsAll(condition);
      SameIsAll(action);
    case If(_, _, condition, yes, no) =>
      SameIsAll(condition);
      SameIsAll(yes);
      SameIsAll(no);
    case Simple(_, _, words, redirects) =>
      SameWordsIsAll(words);
      SameRedirectsIsAll(redirects);
    case Connection(_, _, first, second) =>
      SameIsAll(first);
      SameIsAll(second);
    case Arith(_, _, exp) => SameWordsIsAll(exp);
    case Conditional(cond) => SameCondIsAll(cond);
    case FunctionDef(_, _, name, command, source_file) =>
      SameWordIsAll(name);
      SameIsAll(command);
      SameTextIfAnyIsAll(source_file);
  }

  /** The number of structures and strings that a description is made of. */
  function TextNodes(t: Option<Text<()>>): nat {
    if t.Some? then 1 else 0
  }

  function WordsNodes(l: Words<()>): nat {
    if l.NoWords? then 0 else 1 + 2 + WordsNodes(l.next)
  }

  function TargetNodes(t: Target<()>): nat {
    if t.File? then 2 else 0
  }

  function RedirectsNodes(r: Redirects<()>): nat {
    if r.NoRedirects? then 0
    else
      1 + TargetNodes(r.redirector) + TargetNodes(r.redirectee) + TextNodes(r.here_doc_eof) + RedirectsNodes(r.next)
  }

  function CondNodes(c: Cond<()>): nat {
    if c.NoCond? then 0 else 1 + (if c.op.Some? then 2 else 0) + CondNodes(c.left) + CondNodes(c.right)
  }

  function CommandNodes(c: Command<()>): nat {
    if c.NoCommand? then 0 else 1 + RedirectsNodes(c.redirects) + ValueNodes(c.value)
  }

  function PatternsNodes(p: Patterns<()>): nat {
    if p.NoPatterns? then 0 else 1 + WordsNodes(p.patterns) + CommandNodes(p.action) + PatternsNodes(p.next)
  }

  function ValueNodes(v: Value<()>): nat {
    match v
    case For(_, _, _, _, map_list, action) => 1 + 2 + WordsNodes(map_list) + CommandNodes(action)
    case ArithFor(_, _, init, test, step, action) =>
      1 + WordsNodes(init) + WordsNodes(test) + WordsNodes(step) + CommandNodes(action)
    case Group(_, command) => 1 + CommandNodes(command)
    case Subshell(_, _, command) => 1 + CommandNodes(command)
    case Coproc(_, _, _, command) => 1 + 1 + CommandNodes(command)
    case Case(_, _, _, clauses) => 1 + 2 + PatternsNodes(clauses)
    case While(_, _, _, condition, action) => 1 + CommandNodes(condition) + CommandNodes(action)
    case If(_, _, condition, yes, no) => 1 + CommandNodes(condition) + CommandNodes(yes) + CommandNodes(no)
    case Simple(_, _, words, redirects) => 1 + WordsNodes(words) + RedirectsNodes(redirects)
    case Connection(_, _, first, second) => 1 + CommandNodes(first) + CommandNodes(second)
    case Arith(_, _, exp) => 1 + WordsNodes(exp)
    case Conditional(cond) => CondNodes(cond)
    case FunctionDef(_, _, _, command, source_file) => 1 + 2 + CommandNodes(command) + TextNodes(source_file)
  }

  /** A command has one block for every structure and every string that it is made of. */
  lemma {:induction false} BlocksAreNodes(c: Command<Block>)
    ensures |OfCommand(c)| == CommandNodes(SameCommand(c))
    decreases c
  {
    if c.Command? {
      RedirectsBlocks(c.redirects);
      ValueBlocks(c.value);
    }
  }

  lemma {:induction false} WordsBlocks(l: Words<Block>)
    ensures |OfWords(l)| == WordsNodes(SameWords(l))
  {
    if l.Words? {
      WordsBlocks(l.next);
    }
  }

  lemma {:induction false} RedirectsBlocks(r: Redirects<Block>)
    ensures |OfRedirects(r)| == RedirectsNodes(SameRedirects(r))
  {
    if r.Redirect? {
      RedirectsBlocks(r.next);
    }
  }

  lemma {:induction false} CondBlocks(c: Cond<Block>)
    ensures |OfCond(c)| == CondNodes(SameCond(c))
  {
    if c.Cond? {
      CondBlocks(c.left);
      CondBlocks(c.right);
    }
  }

  lemma {:induction false} PatternsBlocks(p: Patterns<Block>)
    ensures |OfPatterns(p)| == PatternsNodes(SamePatterns(p))
    decreases p
  {
    if p.Pattern? {
      WordsBlocks(p.patterns);
      BlocksAreNodes(p.action);
      PatternsBlocks(p.next);
    }
  }

  lemma WordBlocks(w: Word<Block>)
    ensures |OfWord(w)| == 2 && |OfText(w.text)| == 1
  {
  }

  lemma TextBlocks(t: Option<Text<Block>>)
    ensures |OfTextIfAny(t)| == TextNodes(SameTextIfAny(t))
  {
  }

  lemma {:induction false} ValueBlocks(v: Value<Block>)
    ensures |OfValue(v)| == ValueNodes(SameValue(v))
    decreases v
  {
    hide SameWords, SameRedirects, SameCond, SameCommand, SamePatterns, OfWords, OfRedirects, OfCond, OfCommand,
        OfPatterns;
    hide WordsNodes, RedirectsNodes, CondNodes, CommandNodes, PatternsNodes, SameWord, SameText, OfWord, OfText;
    match v
    case For(_, _, _, name, map_list, action) =>
      WordBlocks(name);
      WordsBlocks(map_list);
      BlocksAreNodes(action);
    case ArithFor(_, _, init, test, step, action) =>
      WordsBlocks(init);
      WordsBlocks(test);
      WordsBlocks(step);
      BlocksAreNodes(action);
    case Group(_, command) => BlocksAreNodes(command);
    case Subshell(_, _, command) => BlocksAreNodes(command);
    case Coproc(_, _, coproc, command) =>
      WordBlocks(Word(0, coproc, 0));
      BlocksAreNodes(command);
    case Case(_, _, word, clauses) =>
      WordBlocks(word);
      PatternsBlocks(clauses);
    case While(_, _, _, condition, action) =>
      BlocksAreNodes(condition);
      BlocksAreNodes(action);
    case If(_, _, condition, yes, no) =>
      BlocksAreNodes(condition);
      BlocksAreNodes(yes);
      BlocksAreNodes(no);
    case Simple(_, _, words, redirects) =>
      WordsBlocks(words);
      RedirectsBlocks(redirects);
    case Connection(_, _, first, second) =>
      BlocksAreNodes(first);
      BlocksAreNodes(second);
    case Arith(_, _, exp) => WordsBlocks(exp);
    case Conditional(cond) => CondBlocks(cond);
    case FunctionDef(_, _, name, command, source_file) =>
      WordBlocks(name);
      TextBlocks(source_file);
      BlocksAreNodes(command);
  }

  /** A redirection has a word for its target unless it is one that duplicates, moves or closes a descriptor. */
  lemma TargetLaw(i: Instruction)
    ensures HasFile(i) <==>
            i in {OutputDirection, InputDirection, InputaDirection, AppendingTo, ReadingUntil, ReadingString,
              DeblankReadingUntil, ErrAndOut, InputOutput, OutputForce, DuplicatingInputWord, DuplicatingOutputWord,
              MoveInputWord, MoveOutputWord, AppendErrAndOut}
    ensures HereDocument(i) <==> i in {ReadingUntil, DeblankReadingUntil}
  {
  }

  // ---------- memory ----------

  /** The blocks that are allocated, none of them twice. */
  class Memory {
    var next: Block
    ghost var live: multiset<Block>

    ghost predicate Valid()
      reads this
    {
      forall b :: live[b] <= if b < next then 1 else 0
    }

    /** The blocks s, none of which was allocated, and nothing else, have been allocated. */
    twostate predicate Added(s: multiset<Block>)
      reads this
    {
      Valid() && live == old(live) + s
    }

    /** What a copy is made of is new. */
    twostate lemma AddedIsNew(new s: multiset<Block>)
      requires old(Valid()) && Added(s)
      ensures forall b :: b in s ==> b !in old(live) && s[b] == 1
    {
      forall b | b in s ensures b !in old(live) && s[b] == 1 {
        assert live[b] == old(live)[b] + s[b];
      }
    }

    /** xmalloc */
    method Allocate() returns (b: Block)
      requires Valid()
      modifies this
      ensures Added(multiset{b})
    {
      b := next;
      next := next + 1;
      live := live + multiset{b};
    }

    /** free, of a block that is allocated; rest is what else there is */
    method Free(b: Block, ghost rest: multiset<Block>)
      requires Valid() && live == rest + multiset{b}
      modifies this`live
      ensures Valid() && live == rest
    {
      live := live - multiset{b};
      assert live == rest;
    }

    /** A field of a block is read: the block is allocated. */
    method Read(b: Block)
      requires b in live
    {
    }

    method CopyText(x: Text<Block>) returns (r: Text<Block>)
      requires Valid()
      modifies this
      ensures Added(OfText(r)) && SameText(r) == SameText(x)
    {
      var cell := Allocate();
      r := Text(cell, x.s);
    }

    method CopyTextIfAny(x: Option<Text<Block>>) returns (r: Option<Text<Block>>)
      requires Valid()
      modifies this
      ensures Added(OfTextIfAny(r)) && SameTextIfAny(r) == SameTextIfAny(x)
    {
      if x.None? {
        return None;
      }
      var t := CopyText(x.value);
      r := Some(t);
    }

    /** copy_word */
    method CopyWord(x: Word<Block>) returns (r: Word<Block>)
      requires Valid()
      modifies this
      ensures Added(OfWord(r)) && SameWord(r) == SameWord(x)
    {
      var cell := Allocate();
      var text := CopyText(x.text);
      r := Word(cell, text, x.flags);
    }

    method CopyWords(x: Words<Block>) returns (r: Words<Block>)
      requires Valid()
      modifies this
      ensures Added(OfWords(r)) && SameWords(r) == SameWords(x)
    {
      if x.NoWords? {
        return NoWords;
      }
      var word := CopyWord(x.word);
      var cell := Allocate();
      var next := CopyWords(x.next);
      r := Words(cell, word, next);
    }

    method CopyWordIf(t: Target<Block>, copied: bool) returns (r: Target<Block>)
      requires Valid() && (copied <==> t.File?)
      modifies this
      ensures Added(OfTarget(r)) && SameTarget(r) == SameTarget(t)
    {
      r := t;
      if copied {
        var word := CopyWord(t.word);
        r := File(word);
      }
    }

    /** copy_redirect: a word is copied where the instruction says that there is one; the link to the next
        redirection is yet to be set. */
    method CopyRedirect(x: Redirects<Block>) returns (r: Redirects<Block>)
      requires Valid() && x.Redirect? && RedirectsOk(x)
      modifies this
      ensures r.Redirect? && r.next == x.next && RedirectsOk(r)
      ensures Added(OfTarget(r.redirector) + OfTextIfAny(r.here_doc_eof) + OfTarget(r.redirectee) + multiset{r.cell})
      ensures SameTarget(r.redirector) == SameTarget(x.redirector)
              && SameTarget(r.redirectee) == SameTarget(x.redirectee)
      ensures SameTextIfAny(r.here_doc_eof) == SameTextIfAny(x.here_doc_eof)
      ensures r.varassign == x.varassign && r.flags == x.flags && r.instruction == x.instruction
    {
      hide OfTarget, SameTarget;
      var cell := Allocate();
      var redirector := CopyWordIf(x.redirector, x.varassign);
      var eof := x.here_doc_eof;
      if HereDocument(x.instruction) {
        eof := CopyTextIfAny(x.here_doc_eof);
      }
      var redirectee := CopyWordIf(x.redirectee, HasFile(x.instruction));
      KindsKept(x.redirector, redirector);
      KindsKept(x.redirectee, redirectee);
      r := Redirect(cell, redirector, x.varassign, x.flags, x.instruction, redirectee, eof, x.next);
    }

    lemma KindsKept(t: Target<Block>, r: Target<Block>)
      requires SameTarget(r) == SameTarget(t)
      ensures r.File? == t.File?
    {
    }

    /** copy_redirects */
    method CopyRedirects(x: Redirects<Block>) returns (r: Redirects<Block>)
      requires Valid() && RedirectsOk(x)
      modifies this
      ensures Added(OfRedirects(r)) && SameRedirects(r) == SameRedirects(x) && RedirectsOk(r)
    {
      if x.NoRedirects? {
        return NoRedirects;
      }
      hide OfTarget, SameTarget, OfTextIfAny, SameTextIfAny;
      var one := CopyRedirect(x);
      var next := CopyRedirects(x.next);
      r := one.(next := next);
    }

    /** copy_cond_command */
    method CopyCond(x: Cond<Block>) returns (r: Cond<Block>)
      requires Valid()
      modifies this
      ensures Added(OfCond(r)) && SameCond(r) == SameCond(x)
    {
      if x.NoCond? {
        return NoCond;
      }
      var cell := Allocate();
      var op: Option<Word<Block>> := None;
      if x.op.Some? {
        var word := CopyWord(x.op.value);
        op := Some(word);
      }
      var left := CopyCond(x.left);
      var right := CopyCond(x.right);
      r := Cond(cell, x.flags, x.kind, op, left, right);
    }

    /** copy_command */
    method CopyCommand(x: Command<Block>) returns (r: Command<Block>)
      requires Valid() && CommandOk(x)
      modifies this
      ensures Added(OfCommand(r)) && SameCommand(r) == SameCommand(x) && CommandOk(r)
      decreases x, 0
    {
      if x.NoCommand? {
        return NoCommand;
      }
      var cell := Allocate();
      var redirects := CopyRedirects(x.redirects);
      var value := CopyValue(x.value);
      r := Command(cell, x.flags, x.line, redirects, value);
    }

    /** copy_case_clauses */
    method CopyPatterns(x: Patterns<Block>) returns (r: Patterns<Block>)
      requires Valid() && PatternsOk(x)
      modifies this
      ensures Added(OfPatterns(r)) && SamePatterns(r) == SamePatterns(x) && PatternsOk(r)
      decreases x, 0
    {
      if x.NoPatterns? {
        return NoPatterns;
      }
      var cell := Allocate();
      var patterns := CopyWords(x.patterns);
      var action := CopyCommand(x.action);
      var next := CopyPatterns(x.next);
      r := Pattern(cell, patterns, action, x.flags, next);
    }

    /** The part of copy_command that depends on the type. */
    method CopyValue(x: Value<Block>) returns (r: Value<Block>)
      requires Valid() && ValueOk(x)
      modifies this
      ensures Added(OfValue(r)) && SameValue(r) == SameValue(x) && ValueOk(r)
      decreases x, 1
    {
      match x
      case For(_, _, _, _, _, _) => r := CopyFor(x);
      case ArithFor(_, _, _, _, _, _) => r := CopyArithFor(x);
      case Group(_, _) => r := CopyGroup(x);
      case Subshell(_, _, _) => r := CopySubshell(x);
      case Coproc(_, _, _, _) => r := CopyCoproc(x);
      case Case(_, _, _, _) => r := CopyCase(x);
      case While(_, _, _, _, _) => r := CopyWhile(x);
      case If(_, _, _, _, _) => r := CopyIf(x);
      case Simple(_, _, _, _) => r := CopySimple(x);
      case Connection(_, _, _, _) => r := CopyConnection(x);
      case Arith(_, _, _) => r := CopyArith(x);
      case FunctionDef(_, _, _, _, _) => r := CopyFunctionDef(x);
      case Conditional(cond) =>
        var c := CopyCond(cond);
        r := Conditional(c);
    }

    /** copy_for_command, also for select */
    method CopyFor(x: Value<Block>) returns (r: Value<Block>)
      requires Valid() && x.For? && ValueOk(x)
      modifies this
      ensures Added(OfValue(r)) && SameValue(r) == SameValue(x) && ValueOk(r)
      decreases x, 0
    {
      var cell := Allocate();
      var name := CopyWord(x.name);
      var map_list := CopyWords(x.map_list);
      var action := CopyCommand(x.action);
      r := For(cell, x.flags, x.select, name, map_list, action);
    }

    /** copy_arith_for_command */
    method CopyArithFor(x: Value<Block>) returns (r: Value<Block>)
      requires Valid() && x.ArithFor? && ValueOk(x)
      modifies this
      ensures Added(OfValue(r)) && SameValue(r) == SameValue(x) && ValueOk(r)
      decreases x, 0
    {
      var cell := Allocate();
      var init := CopyWords(x.init);
      var test := CopyWords(x.test);
      var step := CopyWords(x.step);
      var action := CopyCommand(x.action);
      r := ArithFor(cell, x.flags, init, test, step, action);
    }

    /** copy_group_command */
    method CopyGroup(x: Value<Block>) returns (r: Value<Block>)
      requires Valid() && x.Group? && ValueOk(x)
      modifies this
      ensures Added(OfValue(r)) && SameValue(r) == SameValue(x) && ValueOk(r)
      decreases x, 0
    {
      var cell := Allocate();
      var command := CopyCommand(x.command);
      r := Group(cell, command);
    }

    /** copy_subshell_command */
    method CopySubshell(x: Value<Block>) returns (r: Value<Block>)
      requires Valid() && x.Subshell? && ValueOk(x)
      modifies this
      ensures Added(OfValue(r)) && SameValue(r) == SameValue(x) && ValueOk(r)
      decreases x, 0
    {
      var cell := Allocate();
      var command := CopyCommand(x.command);
      r := Subshell(cell, x.flags, command);
    }

    /** copy_coproc_command */
    method CopyCoproc(x: Value<Block>) returns (r: Value<Block>)
      requires Valid() && x.Coproc? && ValueOk(x)
      modifies this
      ensures Added(OfValue(r)) && SameValue(r) == SameValue(x) && ValueOk(r)
      decreases x, 0
    {
      var cell := Allocate();
      var coproc := CopyText(x.coproc);
      var command := CopyCommand(x.command);
      r := Coproc(cell, x.flags, coproc, command);
    }

    /** copy_case_command */
    method CopyCase(x: Value<Block>) returns (r: Value<Block>)
      requires Valid() && x.Case? && ValueOk(x)
      modifies this
      ensures Added(OfValue(r)) && SameValue(r) == SameValue(x) && ValueOk(r)
      decreases x, 0
    {
      var cell := Allocate();
      var word := CopyWord(x.word);
      var clauses := CopyPatterns(x.clauses);
      r := Case(cell, x.flags, word, clauses);
    }

    /** copy_while_command, also for until */
    method CopyWhile(x: Value<Block>) returns (r: Value<Block>)
      requires Valid() && x.While? && ValueOk(x)
      modifies this
      ensures Added(OfValue(r)) && SameValue(r) == SameValue(x) && ValueOk(r)
      decreases x, 0
    {
      var cell := Allocate();
      var condition := CopyCommand(x.condition);
      var action := CopyCommand(x.action);
      r := While(cell, x.flags, x.until, condition, action);
    }

    /** copy_if_command */
    method CopyIf(x: Value<Block>) returns (r: Value<Block>)
      requires Valid() && x.If? && ValueOk(x)
      modifies this
      ensures Added(OfValue(r)) && SameValue(r) == SameValue(x) && ValueOk(r)
      decreases x, 0
    {
      var cell := Allocate();
      var condition := CopyCommand(x.condition);
      var true_case := CopyCommand(x.true_case);
      var false_case := CopyCommand(x.false_case);
      r := If(cell, x.flags, condition, true_case, false_case);
    }

    /** copy_simple_command */
    method CopySimple(x: Value<Block>) returns (r: Value<Block>)
      requires Valid() && x.Simple? && ValueOk(x)
      modifies this
      ensures Added(OfValue(r)) && SameValue(r) == SameValue(x) && ValueOk(r)
      decreases x, 0
    {
      var cell := Allocate();
      var words := CopyWords(x.words);
      var redirects := CopyRedirects(x.redirects);
      r := Simple(cell, x.flags, words, redirects);
    }

    /** the connection part of copy_command */
    method CopyConnection(x: Value<Block>) returns (r: Value<Block>)
      requires Valid() && x.Connection? && ValueOk(x)
      modifies this
      ensures Added(OfValue(r)) && SameValue(r) == SameValue(x) && ValueOk(r)
      decreases x, 0
    {
      var cell := Allocate();
      var first := CopyCommand(x.first);
      var second := CopyCommand(x.second);
      r := Connection(cell, x.connector, first, second);
    }

    /** copy_arith_command */
    method CopyArith(x: Value<Block>) returns (r: Value<Block>)
      requires Valid() && x.Arith? && ValueOk(x)
      modifies this
      ensures Added(OfValue(r)) && SameValue(r) == SameValue(x) && ValueOk(r)
      decreases x, 0
    {
      var cell := Allocate();
      var exp := CopyWords(x.exp);
      r := Arith(cell, x.flags, exp);
    }

    /** copy_function_def */
    method CopyFunctionDef(x: Value<Block>) returns (r: Value<Block>)
      requires Valid() && x.FunctionDef? && ValueOk(x)
      modifies this
      ensures Added(OfValue(r)) && SameValue(r) == SameValue(x) && ValueOk(r)
      decreases x, 0
    {
      var cell := Allocate();
      var name := CopyWord(x.name);
      var command := CopyCommand(x.command);
      var source_file := CopyTextIfAny(x.source_file);
      r := FunctionDef(cell, x.flags, name, command, source_file);
    }

    method DisposeTextIfAny(x: Option<Text<Block>>, ghost rest: multiset<Block>)
      requires Valid() && live == rest + OfTextIfAny(x)
      modifies this`live
      ensures Valid() && live == rest
    {
      if x.Some? {
        Free(x.value.cell, rest);
      }
    }

    /** dispose_word */
    method DisposeWord(x: Word<Block>, ghost rest: multiset<Block>)
      requires Valid() && live == rest + OfWord(x)
      modifies this`live
      ensures Valid() && live == rest
    {
      Read(x.cell);
      Free(x.text.cell, rest + multiset{x.cell});
      Free(x.cell, rest);
    }

    /** dispose_words */
    method DisposeWords(x: Words<Block>, ghost rest: multiset<Block>)
      requires Valid() && live == rest + OfWords(x)
      modifies this`live
      ensures Valid() && live == rest
    {
      var list := x;
      while list.Words?
        invariant Valid() && live == rest + OfWords(list)
        decreases list
      {
        hide OfWord;
        var t := list;
        Read(t.cell);
        list := list.next;
        DisposeListed(t, rest + OfWords(list));
      }
    }

    method DisposeListed(t: Words<Block>, ghost rest: multiset<Block>)
      requires Valid() && t.Words? && live == rest + multiset{t.cell} + OfWord(t.word)
      modifies this`live
      ensures Valid() && live == rest
    {
      hide OfWord;
      Read(t.cell);
      DisposeWord(t.word, rest + multiset{t.cell});
      Free(t.cell, rest);
    }

    method DisposeTarget(disposed: bool, x: Target<Block>, ghost rest: multiset<Block>)
      requires Valid() && live == rest + OfTarget(x) && (disposed <==> x.File?)
      modifies this`live
      ensures Valid() && live == rest
    {
      if disposed {
        DisposeWord(x.word, rest);
      }
    }

    /** dispose_redirects */
    method DisposeRedirects(x: Redirects<Block>, ghost rest: multiset<Block>)
      requires Valid() && RedirectsOk(x) && live == rest + OfRedirects(x)
      modifies this`live
      ensures Valid() && live == rest
    {
      var list := x;
      while list.Redirect?
        invariant Valid() && RedirectsOk(list) && live == rest + OfRedirects(list)
        decreases list
      {
        hide OfTarget, OfTextIfAny;
        var t := list;
        Read(t.cell);
        list := list.next;
        DisposeRedirect(t, rest + OfRedirects(list));
      }
    }

    method DisposeRedirect(t: Redirects<Block>, ghost rest: multiset<Block>)
      requires Valid() && t.Redirect? && RedirectsOk(t)
      requires live == rest + multiset{t.cell} + OfTarget(t.redirectee) + OfTextIfAny(t.here_doc_eof)
               + OfTarget(t.redirector)
      modifies this`live
      ensures Valid() && live == rest
    {
      hide OfTarget, OfTextIfAny;
      ghost var r1 := rest + multiset{t.cell};
      ghost var r2 := r1 + OfTarget(t.redirectee);
      Read(t.cell);
      DisposeTarget(t.varassign, t.redirector, r2 + OfTextIfAny(t.here_doc_eof));
      if HereDocument(t.instruction) {
        Read(t.cell);
        DisposeTextIfAny(t.here_doc_eof, r2);
      } else {
        NoText(t.here_doc_eof);
      }
      DisposeTarget(HasFile(t.instruction), t.redirectee, r1);
      Free(t.cell, rest);
    }

    lemma NoText(t: Option<Text<Block>>)
      ensures t.None? ==> OfTextIfAny(t) == multiset{}
    {
    }

    /** dispose_cond_node */
    method DisposeCond(x: Cond<Block>, ghost rest: multiset<Block>)
      requires Valid() && live == rest + OfCond(x)
      modifies this`live
      ensures Valid() && live == rest
    {
      if x.Cond? {
        hide OfWord;
        ghost var ofOp := if x.op.Some? then OfWord(x.op.value) else multiset{};
        Read(x.cell);
        DisposeCond(x.left, rest + multiset{x.cell} + ofOp + OfCond(x.right));
        Read(x.cell);
        DisposeCond(x.right, rest + multiset{x.cell} + ofOp);
        if x.op.Some? {
          Read(x.cell);
          DisposeWord(x.op.value, rest + multiset{x.cell});
        }
        Free(x.cell, rest);
      }
    }

    /** dispose_command */
    method DisposeCommand(x: Command<Block>, ghost rest: multiset<Block>)
      requires Valid() && live == rest + OfCommand(x) && CommandOk(x)
      modifies this`live
      ensures Valid() && live == rest
      decreases x, 0
    {
      if x.Command? {
        hide OfRedirects, OfValue;
        Read(x.cell);
        DisposeRedirects(x.redirects, rest + multiset{x.cell} + OfValue(x.value));
        Read(x.cell);
        DisposeValue(x.value, rest + multiset{x.cell});
        Free(x.cell, rest);
      }
    }

    /** the part of dispose_command that frees the clauses of a case command */
    method DisposePatterns(x: Patterns<Block>, ghost rest: multiset<Block>)
      requires Valid() && live == rest + OfPatterns(x) && PatternsOk(x)
      modifies this`live
      ensures Valid() && live == rest
      decreases x, 0
    {
      var p := x;
      while p.Pattern?
        invariant Valid() && PatternsOk(p) && (p == x || p < x) && live == rest + OfPatterns(p)
        decreases p
      {
        hide OfWords, OfCommand;
        Read(p.cell);
        DisposeWords(p.patterns, rest + OfPatterns(p.next) + multiset{p.cell} + OfCommand(p.action));
        Read(p.cell);
        DisposeCommand(p.action, rest + OfPatterns(p.next) + multiset{p.cell});
        var t := p;
        Read(t.cell);
        p := p.next;
        Free(t.cell, rest + OfPatterns(p));
      }
    }

    /** The part of dispose_command that depends on the type. */
    method DisposeValue(x: Value<Block>, ghost rest: multiset<Block>)
      requires Valid() && ValueOk(x) && live == rest + OfValue(x)
      modifies this`live
      ensures Valid() && live == rest
      decreases x, 1
    {
      match x
      case For(_, _, _, _, _, _) => DisposeFor(x, rest);
      case ArithFor(_, _, _, _, _, _) => DisposeArithFor(x, rest);
      case Group(_, _) => DisposeGroup(x, rest);
      case Subshell(_, _, _) => DisposeSubshell(x, rest);
      case Coproc(_, _, _, _) => DisposeCoproc(x, rest);
      case Case(_, _, _, _) => DisposeCase(x, rest);
      case While(_, _, _, _, _) => DisposeWhile(x, rest);
      case If(_, _, _, _, _) => DisposeIf(x, rest);
      case Simple(_, _, _, _) => DisposeSimple(x, rest);
      case Connection(_, _, _, _) => DisposeConnection(x, rest);
      case Arith(_, _, _) => DisposeArith(x, rest);
      case FunctionDef(_, _, _, _, _) => DisposeFunctionDef(x, rest);
      case Conditional(cond) => DisposeCond(cond, rest);
    }

    method DisposeFor(x: Value<Block>, ghost rest: multiset<Block>)
      requires Valid() && x.For? && ValueOk(x) && live == rest + OfValue(x)
      modifies this`live
      ensures Valid() && live == rest
      decreases x, 0
    {
      hide OfWord, OfWords, OfCommand, OfRedirects, OfPatterns, OfTextIfAny;
      Read(x.cell);
      DisposeWord(x.name, rest + OfWords(x.map_list) + OfCommand(x.action) + multiset{x.cell});
      Read(x.cell);
      DisposeWords(x.map_list, rest + OfCommand(x.action) + multiset{x.cell});
      Read(x.cell);
      DisposeCommand(x.action, rest + multiset{x.cell});
      Free(x.cell, rest);
    }

    method DisposeArithFor(x: Value<Block>, ghost rest: multiset<Block>)
      requires Valid() && x.ArithFor? && ValueOk(x) && live == rest + OfValue(x)
      modifies this`live
      ensures Valid() && live == rest
      decreases x, 0
    {
      hide OfWord, OfWords, OfCommand, OfRedirects, OfPatterns, OfTextIfAny;
      Read(x.cell);
      DisposeWords(x.init, rest + OfWords(x.test) + OfWords(x.step) + OfCommand(x.action) + multiset{x.cell});
      Read(x.cell);
      DisposeWords(x.test, rest + OfWords(x.step) + OfCommand(x.action) + multiset{x.cell});
      Read(x.cell);
      DisposeWords(x.step, rest + OfCommand(x.action) + multiset{x.cell});
      Read(x.cell);
      DisposeCommand(x.action, rest + multiset{x.cell});
      Free(x.cell, rest);
    }

    method DisposeGroup(x: Value<Block>, ghost rest: multiset<Block>)
      requires Valid() && x.Group? && ValueOk(x) && live == rest + OfValue(x)
      modifies this`live
      ensures Valid() && live == rest
      decreases x, 0
    {
      hide OfWord, OfWords, OfCommand, OfRedirects, OfPatterns, OfTextIfAny;
      Read(x.cell);
      DisposeCommand(x.command, rest + multiset{x.cell});
      Free(x.cell, rest);
    }

    method DisposeSubshell(x: Value<Block>, ghost rest: multiset<Block>)
      requires Valid() && x.Subshell? && ValueOk(x) && live == rest + OfValue(x)
      modifies this`live
      ensures Valid() && live == rest
      decreases x, 0
    {
      hide OfWord, OfWords, OfCommand, OfRedirects, OfPatterns, OfTextIfAny;
      Read(x.cell);
      DisposeCommand(x.command, rest + multiset{x.cell});
      Free(x.cell, rest);
    }

    method DisposeCoproc(x: Value<Block>, ghost rest: multiset<Block>)
      requires Valid() && x.Coproc? && ValueOk(x) && live == rest + OfValue(x)
      modifies this`live
      ensures Valid() && live == rest
      decreases x, 0
    {
      hide OfWord, OfWords, OfCommand, OfRedirects, OfPatterns, OfTextIfAny;
      Read(x.cell);
      Free(x.coproc.cell, rest + OfCommand(x.command) + multiset{x.cell});
      Read(x.cell);
      DisposeCommand(x.command, rest + multiset{x.cell});
      Free(x.cell, rest);
    }

    method DisposeCase(x: Value<Block>, ghost rest: multiset<Block>)
      requires Valid() && x.Case? && ValueOk(x) && live == rest + OfValue(x)
      modifies this`live
      ensures Valid() && live == rest
      decreases x, 0
    {
      hide OfWord, OfWords, OfCommand, OfRedirects, OfPatterns, OfTextIfAny;
      Read(x.cell);
      DisposeWord(x.word, rest + OfPatterns(x.clauses) + multiset{x.cell});
      Read(x.cell);
      DisposePatterns(x.clauses, rest + multiset{x.cell});
      Free(x.cell, rest);
    }

    method DisposeWhile(x: Value<Block>, ghost rest: multiset<Block>)
      requires Valid() && x.While? && ValueOk(x) && live == rest + OfValue(x)
      modifies this`live
      ensures Valid() && live == rest
      decreases x, 0
    {
      hide OfWord, OfWords, OfCommand, OfRedirects, OfPatterns, OfTextIfAny;
      Read(x.cell);
      DisposeCommand(x.condition, rest + OfCommand(x.action) + multiset{x.cell});
      Read(x.cell);
      DisposeCommand(x.action, rest + multiset{x.cell});
      Free(x.cell, rest);
    }

    method DisposeIf(x: Value<Block>, ghost rest: multiset<Block>)
      requires Valid() && x.If? && ValueOk(x) && live == rest + OfValue(x)
      modifies this`live
      ensures Valid() && live == rest
      decreases x, 0
    {
      hide OfWord, OfWords, OfCommand, OfRedirects, OfPatterns, OfTextIfAny;
      Read(x.cell);
      DisposeCommand(x.condition, rest + OfCommand(x.true_case) + OfCommand(x.false_case) + multiset{x.cell});
      Read(x.cell);
      DisposeCommand(x.true_case, rest + OfCommand(x.false_case) + multiset{x.cell});
      Read(x.cell);
      DisposeCommand(x.false_case, rest + multiset{x.cell});
      Free(x.cell, rest);
    }

    method DisposeSimple(x: Value<Block>, ghost rest: multiset<Block>)
      requires Valid() && x.Simple? && ValueOk(x) && live == rest + OfValue(x)
      modifies this`live
      ensures Valid() && live == rest
      decreases x, 0
    {
      hide OfWord, OfWords, OfCommand, OfRedirects, OfPatterns, OfTextIfAny;
      Read(x.cell);
      DisposeWords(x.words, rest + OfRedirects(x.redirects) + multiset{x.cell});
      Read(x.cell);
      DisposeRedirects(x.redirects, rest + multiset{x.cell});
      Free(x.cell, rest);
    }

    method DisposeConnection(x: Value<Block>, ghost rest: multiset<Block>)
      requires Valid() && x.Connection? && ValueOk(x) && live == rest + OfValue(x)
      modifies this`live
      ensures Valid() && live == rest
      decreases x, 0
    {
      hide OfWord, OfWords, OfCommand, OfRedirects, OfPatterns, OfTextIfAny;
      Read(x.cell);
      DisposeCommand(x.first, rest + OfCommand(x.second) + multiset{x.cell});
      Read(x.cell);
      DisposeCommand(x.second, rest + multiset{x.cell});
      Free(x.cell, rest);
    }

    method DisposeArith(x: Value<Block>, ghost rest: multiset<Block>)
      requires Valid() && x.Arith? && ValueOk(x) && live == rest + OfValue(x)
      modifies this`live
      ensures Valid() && live == rest
      decreases x, 0
    {
      hide OfWord, OfWords, OfCommand, OfRedirects, OfPatterns, OfTextIfAny;
      Read(x.cell);
      DisposeWords(x.exp, rest + multiset{x.cell});
      Free(x.cell, rest);
    }

    method DisposeFunctionDef(x: Value<Block>, ghost rest: multiset<Block>)
      requires Valid() && x.FunctionDef? && ValueOk(x) && live == rest + OfValue(x)
      modifies this`live
      ensures Valid() && live == rest
      decreases x, 0
    {
      hide OfWord, OfWords, OfCommand, OfRedirects, OfPatterns, OfTextIfAny;
      Read(x.cell);
      DisposeWord(x.name, rest + OfCommand(x.command) + OfTextIfAny(x.source_file) + multiset{x.cell});
      Read(x.cell);
      DisposeCommand(x.command, rest + OfTextIfAny(x.source_file) + multiset{x.cell});
      Read(x.cell);
      DisposeTextIfAny(x.source_file, rest + multiset{x.cell});
      Free(x.cell, rest);
    }

    /** What execute_function does with a body: a copy is made, and disposed of after it has been used. No
        block is left over, none is freed twice, and the original is as allocated as before. */
    method CopyAndDispose(body: Command<Block>) returns (used: Command<()>)
      requires Valid() && CommandOk(body)
      modifies this
      ensures Valid() && live == old(live) && used == SameCommand(body)
    {
      var tc := CopyCommand(body);
      used := SameCommand(tc);
      DisposeCommand(tc, old(live));
    }
  }
}
