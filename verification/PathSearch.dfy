/** Looking a command up in $PATH (findcmd.c, general.c) and remembering where it was (hashcmd.c). */
module PathSearch {
  import opened Strings
  import opened Wrappers

  // ---------- the units of a path ----------

  function ColonEnd(s: string, i: nat): (e: nat)
    requires i <= |s|
    ensures i <= e <= |s| && (e < |s| ==> s[e] == ':') && forall k :: i <= k < e ==> s[k] != ':'
    decreases |s| - i
  {
    if i < |s| && s[i] != ':' then ColonEnd(s, i + 1) else i
  }

  /** The fields of s between its colons. */
  function Split(s: string): (r: seq<string>)
    ensures |r| > 0
    decreases |s|
  {
    var e := ColonEnd(s, 0);
    if e == |s| then [s] else [s[..e]] + Split(s[e + 1..])
  }

  /** extract_colon_unit: the unit at index, if there is one, and the index to go on from. */
  method ExtractColonUnit(s: string, index: nat) returns (value: Option<string>, index': nat)
    requires index <= |s|
    ensures index' <= |s| && (value.Some? ==> index < |s| && index' > index)
    ensures value == None <==> index >= |s|
    ensures value.Some? ==> (value.value, index') == Unit(s, index)
  {
    if index >= |s| {
      return None, index;
    }
    var i := index;
    if i > 0 && s[i] == ':' {
      i := i + 1;
    }
    var start := i;
    while i < |s| && s[i] != ':'
      invariant start <= i <= |s| && ColonEnd(s, i) == ColonEnd(s, start) && forall k :: start <= k < i ==> s[k] != ':'
    {
      i := i + 1;
    }
    index' := i;
    assert i == start ==> s[start..i] == "";
    if i == start {
      if i < |s| {
        index' := i + 1;
      }
      value := Some("");
    } else {
      value := Some(s[start..i]);
    }
  }

  /** What extract_colon_unit finds at i, and where it goes on. */
  function Unit(s: string, i: nat): (r: (string, nat))
    requires i < |s|
    ensures i < r.1 <= |s|
  {
    var start := if i > 0 && s[i] == ':' then i + 1 else i;
    var e := ColonEnd(s, start);
    (s[start..e], if e == start && e < |s| then e + 1 else e)
  }

  /** All the units from i on. */
  function Units(s: string, i: nat): seq<string>
    requires i <= |s|
    decreases |s| - i
  {
    if i == |s| then [] else [Unit(s, i).0] + Units(s, Unit(s, i).1)
  }

  /** s without the empty units that follow an empty one; `after` tells whether one comes before s. */
  function Squeeze(s: seq<string>, after: bool): seq<string> {
    if s == [] then []
    else if s[0] == "" && after then Squeeze(s[1..], true)
    else [s[0]] + Squeeze(s[1..], s[0] == "")
  }

  lemma SqueezeCons(x: string, s: seq<string>, after: bool)
    ensures Squeeze([x] + s, after) == if x == "" && after then Squeeze(s, true) else [x] + Squeeze(s, x == "")
  {
    assert ([x] + s)[1..] == s;
  }

  lemma ColonEndShift(s: string, i: nat, d: nat)
    requires d + i <= |s|
    ensures ColonEnd(s[d..], i) == ColonEnd(s, d + i) - d
    decreases |s| - d - i
  {
    if d + i < |s| && s[d + i] != ':' {
      ColonEndShift(s, i + 1, d);
    }
  }

  /** Splitting the rest of s from i on. */
  lemma SplitFrom(s: string, i: nat)
    requires i <= |s|
    ensures var e := ColonEnd(s, i);
            Split(s[i..]) == if e == |s| then [s[i..]] else [s[i..e]] + Split(s[e + 1..])
  {
    var e := ColonEnd(s, i);
    ColonEndShift(s, 0, i);
    if e < |s| {
      assert s[i..][..e - i] == s[i..e] && s[i..][e - i + 1..] == s[e + 1..];
    }
  }

  lemma UnitsStep(s: string, i: nat, start: nat)
    requires i < |s| && start == (if i > 0 && s[i] == ':' then i + 1 else i)
    ensures var e := ColonEnd(s, start);
            Units(s, i) == [s[start..e]] + Units(s, if e == start && e < |s| then e + 1 else e)
  {
  }

  lemma UnitsEnd(s: string)
    ensures Units(s, |s|) == []
  {
  }

  /** The unit from start on, and those that follow it. */
  lemma {:induction false} UnitsGoOn(s: string, i: nat, start: nat, after: bool)
    requires i < |s| && start == (if i > 0 && s[i] == ':' then i + 1 else i)
    ensures Squeeze(Units(s, i), after) == Squeeze(Split(s[start..]), after)
    decreases |s| - i, 0
  {
    hide Squeeze, Split, Units, Unit, ColonEnd;
    SplitFrom(s, start);
    UnitsStep(s, i, start);
    var e := ColonEnd(s, start);
    var x, next := s[start..e], if e == start && e < |s| then e + 1 else e;
    SqueezeCons(x, Units(s, next), after);
    if e == |s| {
      assert s[start..e] == s[start..] && [s[start..]] == [x] + [];
      UnitsEnd(s);
      SqueezeCons(x, [], after);
    } else {
      SqueezeCons(x, Split(s[e + 1..]), after);
      if e == start {
        UnitsAfterEmpty(s, e + 1);
      } else {
        UnitsGoOn(s, e, e + 1, false);
      }
    }
  }

  /** Units after an empty one and its colon: an empty one here may be left out. */
  lemma {:induction false} UnitsAfterEmpty(s: string, i: nat)
    requires 0 < i <= |s|
    ensures Squeeze(Units(s, i), true) == Squeeze(Split(s[i..]), true)
    decreases |s| - i, 1
  {
    if i == |s| {
      SqueezeCons("", [], true);
    } else if s[i] == ':' {
      SplitFrom(s, i);
      assert s[i..i] == "";
      SqueezeCons("", Split(s[i + 1..]), true);
      UnitsGoOn(s, i, i + 1, true);
    } else {
      UnitsGoOn(s, i, i, true);
    }
  }

  /** The units are the fields between colons, once empty ones that follow an empty one are left out of both. */
  lemma UnitsAreFields(s: string)
    requires s != ""
    ensures Squeeze(Units(s, 0), false) == Squeeze(Split(s), false)
  {
    assert s[0..] == s;
    UnitsGoOn(s, 0, 0, false);
  }

  /** No empty field follows an empty one. */
  predicate NoEmptyPair(fields: seq<string>) {
    forall k :: 0 < k < |fields| ==> fields[k - 1] != "" || fields[k] != ""
  }

  lemma NoEmptyPairCons(x: string, fields: seq<string>)
    requires fields != []
    ensures NoEmptyPair([x] + fields) <==> (x != "" || fields[0] != "") && NoEmptyPair(fields)
  {
    var more := [x] + fields;
    if NoEmptyPair(more) {
      assert more[0] == x && more[1] == fields[0];
      forall k | 0 < k < |fields| ensures fields[k - 1] != "" || fields[k] != "" {
        assert more[k] == fields[k - 1] && more[k + 1] == fields[k];
      }
    }
  }

  lemma SameRest(x: string, a: seq<string>, b: seq<string>)
    ensures [x] + a == [x] + b <==> a == b
  {
    assert ([x] + a)[1..] == a && ([x] + b)[1..] == b;
  }

  /** The unit from start on and those that follow it are never more than the fields, and are the fields exactly
      where no empty field follows an empty one. */
  lemma {:induction false} UnitsOrFewer(s: string, i: nat, start: nat)
    requires i < |s| && start == (if i > 0 && s[i] == ':' then i + 1 else i)
    ensures Units(s, i) == Split(s[start..]) <==> NoEmptyPair(Split(s[start..]))
    ensures |Units(s, i)| <= |Split(s[start..])|
    decreases |s| - i, 0
  {
    hide Split, Units, Unit, ColonEnd, NoEmptyPair;
    SplitFrom(s, start);
    UnitsStep(s, i, start);
    var e := ColonEnd(s, start);
    var x, next := s[start..e], if e == start && e < |s| then e + 1 else e;
    if e == |s| {
      UnitsEnd(s);
      assert s[start..e] == s[start..] && [x] + [] == [s[start..]];
      OneField(x);
    } else {
      NoEmptyPairCons(x, Split(s[e + 1..]));
      SameRest(x, Units(s, next), Split(s[e + 1..]));
      if e == start {
        UnitsAfterEmptyOrFewer(s, e + 1);
      } else {
        UnitsOrFewer(s, e, e + 1);
      }
    }
  }

  lemma OneField(x: string)
    ensures NoEmptyPair([x])
  {
  }

  /** The same after an empty unit and its colon: an empty field here is lost. */
  lemma {:induction false} UnitsAfterEmptyOrFewer(s: string, i: nat)
    requires 0 < i <= |s|
    ensures Units(s, i) == Split(s[i..]) <==> Split(s[i..])[0] != "" && NoEmptyPair(Split(s[i..]))
    ensures |Units(s, i)| <= |Split(s[i..])|
    decreases |s| - i, 1
  {
    hide NoEmptyPair;
    SplitFrom(s, i);
    if i == |s| {
    } else if s[i] == ':' {
      UnitsOrFewer(s, i, i + 1);
      assert Split(s[i..])[0] == s[i..i] == "";
    } else {
      UnitsOrFewer(s, i, i);
      assert Split(s[i..])[0] != "";
    }
  }

  /** The units are the fields between colons if and only if no empty field follows an empty one. */
  lemma UnitsExactly(s: string)
    requires s != ""
    ensures Units(s, 0) == Split(s) <==> NoEmptyPair(Split(s))
  {
    assert s[0..] == s;
    UnitsOrFewer(s, 0, 0);
  }

  /** The shortest paths that lose a field. */
  lemma FieldsLost()
    ensures Units(":", 0) == [""] && Split(":") == ["", ""]
    ensures Units("::", 0) == ["", ""] && Split("::") == ["", "", ""]
  {
    assert ":"[1..] == "" && "::"[1..] == ":";
    assert Split("") == [""] && Split(":") == [""] + Split("");
    assert Split("::") == [""] + Split(":");
    UnitsEnd(":");
    UnitsEnd("::");
  }

  // ---------- files ----------

  /** What file_status tells about a pathname. */
  datatype Status = Missing | Directory | Plain(executable: bool)

  /** The file system as the shell sees it: `sameAsDot` tells whether a directory is the current one,
      `tilde` expands a leading `~`, and `ignored` is what EXECIGNORE matches. */
  datatype Files = Files(
    status: string -> Status, sameAsDot: string -> bool, tilde: string -> string, ignored: string -> bool)

  predicate Runs(fs: Files, path: string) {
    fs.status(path) == Plain(true)
  }

  function MakePath(path: string, name: string): string {
    if path == "" then "./" + name else if path[|path| - 1] == '/' then path + name else path + "/" + name
  }

  predicate HasSlash(name: string) {
    '/' in name
  }

  /** The directory that an element of the path stands for. */
  function DirectoryOf(fs: Files, element: string): string {
    if element == "" then "." else if element[0] == '~' then fs.tilde(element) else element
  }

  function Candidate(fs: Files, name: string, element: string): string {
    MakePath(DirectoryOf(fs, element), name)
  }

  predicate IsDot(fs: Files, element: string) {
    var d := DirectoryOf(fs, element);
    d != "" && d[0] == '.' && fs.sameAsDot(d)
  }

  /** file_to_lose_on and dot_found_in_search. */
  datatype Memory = Memory(loser: Option<string>, dot: bool)

  /** The result of a search: the pathname, whether it is known to be executable, and whether the current
      directory was among those searched. */
  datatype Search = Search(path: Option<string>, executable: bool, dot: bool)

  function Remember(fs: Files, name: string, element: string, m: Memory): Memory {
    var c := Candidate(fs, name, element);
    Memory(if m.loser.None? && fs.status(c) != Missing && !fs.ignored(c) then Some(c)
        else m.loser, m.dot || IsDot(fs, element))
  }

  /** The search from a point on, element by element. */
  function SearchFrom(fs: Files, name: string, elements: seq<string>, m: Memory): Search
    decreases |elements|
  {
    if elements == [] then
      Search(if m.loser.Some? && fs.status(m.loser.value) == Directory then None else m.loser, false, m.dot)
    else if Runs(fs, Candidate(fs, name, elements[0])) then
      Search(Some(Candidate(fs, name, elements[0])), true, m.dot || IsDot(fs, elements[0]))
    else SearchFrom(fs, name, elements[1..], Remember(fs, name, elements[0], m))
  }

  function SearchPath(fs: Files, name: string, path: Option<string>): Search {
    if path.None? || path.value == "" then Search(Some(name), false, false)
    else SearchFrom(fs, name, Units(path.value, 0), Memory(None, false))
  }

  /** The first executable file wins. */
  lemma {:induction false} FirstExecutable(fs: Files, name: string, elements: seq<string>, m: Memory, k: nat)
    requires k < |elements| && Runs(fs, Candidate(fs, name, elements[k]))
    requires forall j :: 0 <= j < k ==> !Runs(fs, Candidate(fs, name, elements[j]))
    ensures SearchFrom(fs, name, elements, m).path == Some(Candidate(fs, name, elements[k]))
    ensures SearchFrom(fs, name, elements, m).executable
  {
    if k > 0 {
      forall j | 0 <= j < k - 1 ensures !Runs(fs, Candidate(fs, name, elements[1..][j])) {
        assert elements[1..][j] == elements[j + 1];
      }
      FirstExecutable(fs, name, elements[1..], Remember(fs, name, elements[0], m), k - 1);
    }
  }

  /** Without one, the first thing there that is not ignored does, unless it is a directory. */
  lemma {:induction false} NothingExecutable(fs: Files, name: string, elements: seq<string>, m: Memory)
    requires forall k :: 0 <= k < |elements| ==> !Runs(fs, Candidate(fs, name, elements[k]))
    ensures SearchFrom(fs, name, elements, m).path == Loser(fs, name, elements, m.loser)
    ensures !SearchFrom(fs, name, elements, m).executable
  {
    if elements != [] {
      forall j | 0 <= j < |elements| - 1 ensures !Runs(fs, Candidate(fs, name, elements[1..][j])) {
        assert elements[1..][j] == elements[j + 1];
      }
      NothingExecutable(fs, name, elements[1..], Remember(fs, name, elements[0], m));
    }
  }

  /** The first candidate that is there and not ignored, unless it is a directory. */
  function Loser(fs: Files, name: string, elements: seq<string>, loser: Option<string>): Option<string>
    decreases |elements|
  {
    if loser.Some? then if fs.status(loser.value) == Directory then None else loser
    else if elements == [] then None
    else
      var c := Candidate(fs, name, elements[0]);
      Loser(fs, name, elements[1..], if fs.status(c) != Missing && !fs.ignored(c) then Some(c) else None)
  }

  /** Searching the current directory twice in a row is searching it once. */
  lemma {:induction false} SqueezedSearch(fs: Files, name: string, elements: seq<string>, m: Memory, after: bool)
    requires after ==> !Runs(fs, Candidate(fs, name, "")) && Remember(fs, name, "", m) == m
    ensures SearchFrom(fs, name, Squeeze(elements, after), m) == SearchFrom(fs, name, elements, m)
    decreases |elements|
  {
    if elements != [] {
      var e := elements[0];
      if e == "" && after {
        SqueezedSearch(fs, name, elements[1..], m, true);
      } else if !Runs(fs, Candidate(fs, name, e)) {
        SqueezeCons(e, elements[1..], after);
        assert Squeeze(elements, after)[1..] == Squeeze(elements[1..], e == "");
        SqueezedSearch(fs, name, elements[1..], Remember(fs, name, e, m), e == "");
      }
    }
  }

  /** A search of $PATH is a search of the directories between its colons. */
  lemma SearchesFields(fs: Files, name: string, path: string)
    requires path != ""
    ensures SearchPath(fs, name, Some(path)) == SearchFrom(fs, name, Split(path), Memory(None, false))
  {
    UnitsAreFields(path);
    SqueezedSearch(fs, name, Units(path, 0), Memory(None, false), false);
    SqueezedSearch(fs, name, Split(path), Memory(None, false), false);
  }

  /** Whether a result is known to be executable tells whether it is. */
  lemma {:induction false} ExecutableRuns(fs: Files, name: string, elements: seq<string>, m: Memory)
    requires m.loser.Some? ==> !Runs(fs, m.loser.value)
    ensures var r := SearchFrom(fs, name, elements, m);
            (r.path.Some? ==> (r.executable <==> Runs(fs, r.path.value))) && (r.path.None? ==> !r.executable)
    decreases |elements|
  {
    if elements != [] && !Runs(fs, Candidate(fs, name, elements[0])) {
      ExecutableRuns(fs, name, elements[1..], Remember(fs, name, elements[0], m));
    }
  }

  /** A result is a candidate of one of the elements, or what was remembered. */
  lemma {:induction false} ResultIsCandidate(fs: Files, name: string, elements: seq<string>, m: Memory) returns (k: nat)
    requires SearchFrom(fs, name, elements, m).path.Some? && SearchFrom(fs, name, elements, m).path != m.loser
    ensures k < |elements| && SearchFrom(fs, name, elements, m).path == Some(Candidate(fs, name, elements[k]))
    decreases |elements|
  {
    var c := Candidate(fs, name, elements[0]);
    var m' := Remember(fs, name, elements[0], m);
    if Runs(fs, c) || SearchFrom(fs, name, elements[1..], m').path == m'.loser {
      k := 0;
    } else {
      k := ResultIsCandidate(fs, name, elements[1..], m');
      k := k + 1;
    }
  }

  // ---------- the search, told by the file system alone ----------

  /** c is the pathname that stands for `name` in the directory d. */
  predicate IsNamedIn(c: string, name: string, d: string) {
    if d == "" then c == ['.', '/'] + name
    else if d[|d| - 1] == '/' then c == d + name
    else c == d + ['/'] + name
  }

  /** The pathname that is tried for a field of the path; an empty field is the current directory. */
  lemma CandidateLaw(fs: Files, name: string, field: string)
    ensures field == "" ==> Candidate(fs, name, field) == ['.', '/'] + name
    ensures field != "" && field[0] != '~' ==> IsNamedIn(Candidate(fs, name, field), name, field)
    ensures field != "" && field[0] == '~' ==> IsNamedIn(Candidate(fs, name, field), name, fs.tilde(field))
  {
    assert "./" == ['.', '/'] && "/" == ['/'];
  }

  /** fields[k] is the first whose candidate has the given status. */
  predicate FirstRunning(fs: Files, name: string, fields: seq<string>, k: nat) {
    && k < |fields| && fs.status(Candidate(fs, name, fields[k])) == Plain(true)
    && forall j :: 0 <= j < k ==> fs.status(Candidate(fs, name, fields[j])) != Plain(true)
  }

  /** fields[k] is the first whose candidate is there and not ignored. */
  predicate FirstPresent(fs: Files, name: string, fields: seq<string>, k: nat) {
    && k < |fields| && IsPresent(fs, name, fields[k]) && forall j :: 0 <= j < k ==> !IsPresent(fs, name, fields[j])
  }

  predicate IsPresent(fs: Files, name: string, field: string) {
    fs.status(Candidate(fs, name, field)) != Missing && !fs.ignored(Candidate(fs, name, field))
  }

  /** A search finds the first field of the path whose candidate is an executable file, and says so, if there is one;
      without one it finds the first whose candidate is there at all and not ignored, unless that is a directory. */
  lemma SearchLaw(fs: Files, name: string, path: string)
    requires path != ""
    ensures var fields, r := Split(path), SearchPath(fs, name, Some(path));
            && (r.executable <==>
                  exists k :: 0 <= k < |fields| && fs.status(Candidate(fs, name, fields[k])) == Plain(true))
            && (forall k: nat :: FirstRunning(fs, name, fields, k) ==> r.path == Some(Candidate(fs, name, fields[k])))
            && (!r.executable ==> forall k: nat :: FirstPresent(fs, name, fields, k) ==>
                  r.path == if fs.status(Candidate(fs, name, fields[k])) == Directory then None
                            else Some(Candidate(fs, name, fields[k])))
            && (!r.executable && (forall k :: 0 <= k < |fields| ==> !IsPresent(fs, name, fields[k])) ==> r.path == None)
  {
    hide Candidate, SearchPath, SearchFrom, Split, FirstRunning, FirstPresent, IsPresent;
    SearchesFields(fs, name, path);
    var fields, m := Split(path), Memory(None, false);
    if k :| 0 <= k < |fields| && fs.status(Candidate(fs, name, fields[k])) == Plain(true) {
      var j := LeastRunning(fs, name, fields, k);
      RunningFound(fs, name, fields, j);
    } else {
      NothingRuns(fs, name, fields);
    }
    forall k: nat | FirstRunning(fs, name, fields, k)
      ensures k < |fields| && SearchFrom(fs, name, fields, m).path == Some(Candidate(fs, name, fields[k]))
    {
      RunningFound(fs, name, fields, k);
    }
  }

  lemma {:induction false} LeastRunning(fs: Files, name: string, fields: seq<string>, k: nat) returns (j: nat)
    requires k < |fields| && fs.status(Candidate(fs, name, fields[k])) == Plain(true)
    ensures FirstRunning(fs, name, fields, j)
    decreases k
  {
    if i :| 0 <= i < k && fs.status(Candidate(fs, name, fields[i])) == Plain(true) {
      j := LeastRunning(fs, name, fields, i);
    } else {
      j := k;
    }
  }

  lemma RunningFound(fs: Files, name: string, fields: seq<string>, k: nat)
    requires FirstRunning(fs, name, fields, k)
    ensures k < |fields| && fs.status(Candidate(fs, name, fields[k])) == Plain(true)
    ensures var r := SearchFrom(fs, name, fields, Memory(None, false));
            r.executable && r.path == Some(Candidate(fs, name, fields[k]))
  {
    hide Candidate, SearchFrom;
    FirstExecutable(fs, name, fields, Memory(None, false), k);
  }

  lemma NothingRuns(fs: Files, name: string, fields: seq<string>)
    requires forall k :: 0 <= k < |fields| ==> fs.status(Candidate(fs, name, fields[k])) != Plain(true)
    ensures var r := SearchFrom(fs, name, fields, Memory(None, false));
            && !r.executable && (forall k: nat :: !FirstRunning(fs, name, fields, k))
            && (forall k: nat :: FirstPresent(fs, name, fields, k) ==>
                  r.path == if fs.status(Candidate(fs, name, fields[k])) == Directory then None
                            else Some(Candidate(fs, name, fields[k])))
            && ((forall k :: 0 <= k < |fields| ==> !IsPresent(fs, name, fields[k])) ==> r.path == None)
  {
    hide Candidate, SearchFrom;
    NothingExecutable(fs, name, fields, Memory(None, false));
    LoserLaw(fs, name, fields);
  }

  lemma {:induction false} LoserLaw(fs: Files, name: string, fields: seq<string>)
    ensures forall k: nat :: FirstPresent(fs, name, fields, k) ==>
              Loser(fs, name, fields, None)
              == if fs.status(Candidate(fs, name, fields[k])) == Directory then None
                 else Some(Candidate(fs, name, fields[k]))
    ensures (forall k :: 0 <= k < |fields| ==> !IsPresent(fs, name, fields[k])) ==>
              Loser(fs, name, fields, None) == None
    decreases |fields|
  {
    hide Candidate;
    if fields != [] {
      LoserLaw(fs, name, fields[1..]);
      forall k: nat | FirstPresent(fs, name, fields, k) && k > 0
        ensures FirstPresent(fs, name, fields[1..], k - 1)
      {
        assert fields[1..][k - 1] == fields[k] && !IsPresent(fs, name, fields[0]);
        assert forall j :: 0 <= j < k - 1 ==> fields[1..][j] == fields[j + 1];
      }
    }
  }

  /** The field stands for the current directory, under a name that begins with a dot. */
  predicate StandsForDot(fs: Files, field: string) {
    if field == "" then fs.sameAsDot(['.'])
    else
      var d := if field[0] == '~' then fs.tilde(field) else field;
      d != "" && d[0] == '.' && fs.sameAsDot(d)
  }

  /** fields[k] is such a field, and no file was found before it. */
  predicate DotSearched(fs: Files, name: string, fields: seq<string>, k: nat) {
    && k < |fields| && StandsForDot(fs, fields[k])
    && forall j :: 0 <= j < k ==> fs.status(Candidate(fs, name, fields[j])) != Plain(true)
  }

  /** `dot` tells whether such a field is among those that were searched. */
  lemma {:induction false} DotLaw(fs: Files, name: string, fields: seq<string>, m: Memory)
    ensures SearchFrom(fs, name, fields, m).dot <==> m.dot || exists k: nat :: DotSearched(fs, name, fields, k)
    decreases |fields|
  {
    hide Candidate, StandsForDot, DotSearched;
    if fields == [] {
      NoDot(fs, name);
    } else {
      DotIs(fs, fields[0]);
      DotFirst(fs, name, fields);
      hide IsDot;
      if fs.status(Candidate(fs, name, fields[0])) != Plain(true) {
        DotLaw(fs, name, fields[1..], Remember(fs, name, fields[0], m));
      }
    }
  }

  lemma NoDot(fs: Files, name: string)
    ensures forall k: nat :: !DotSearched(fs, name, [], k)
  {
  }

  lemma DotFirst(fs: Files, name: string, fields: seq<string>)
    requires fields != []
    ensures DotSearched(fs, name, fields, 0) <==> StandsForDot(fs, fields[0])
    ensures fs.status(Candidate(fs, name, fields[0])) == Plain(true) ==>
              forall k: nat :: DotSearched(fs, name, fields, k) ==> k == 0
    ensures fs.status(Candidate(fs, name, fields[0])) != Plain(true) ==>
              ((exists k: nat :: DotSearched(fs, name, fields, k))
               <==> StandsForDot(fs, fields[0]) || exists k: nat :: DotSearched(fs, name, fields[1..], k))
  {
    hide Candidate, StandsForDot;
    if k: nat :| DotSearched(fs, name, fields[1..], k) && fs.status(Candidate(fs, name, fields[0])) != Plain(true) {
      assert forall j :: 0 < j <= k ==> fields[j] == fields[1..][j - 1];
      assert DotSearched(fs, name, fields, k + 1);
    }
    if k: nat :| k > 0 && DotSearched(fs, name, fields, k) {
      assert forall j :: 0 <= j < k ==> fields[1..][j] == fields[j + 1];
      assert DotSearched(fs, name, fields[1..], k - 1);
    }
    assert DotSearched(fs, name, fields, 0) <==> StandsForDot(fs, fields[0]);
  }

  lemma DotIs(fs: Files, field: string)
    ensures IsDot(fs, field) <==> StandsForDot(fs, field)
  {
    assert "." == ['.'];
  }

  /** The fields have no colons, and with colons between them they are the path. */
  lemma {:induction false} FieldsLaw(path: string)
    ensures Joined(Split(path)) == path && forall k :: 0 <= k < |Split(path)| ==> ':' !in Split(path)[k]
    decreases |path|
  {
    var e := ColonEnd(path, 0);
    if e < |path| {
      FieldsLaw(path[e + 1..]);
      assert Split(path)[1..] == Split(path[e + 1..]);
      assert path == path[..e] + [':'] + path[e + 1..];
    }
  }

  function Joined(fields: seq<string>): string {
    if fields == [] then "" else if |fields| == 1 then fields[0] else fields[0] + [':'] + Joined(fields[1..])
  }

  // ---------- the search ----------

  /** find_in_path_element */
  method FindInPathElement(fs: Files, name: string, path: string, m0: Memory) returns (found: Option<string>, m: Memory)
    requires path != ""
    ensures var element := path;
            if Runs(fs, Candidate(fs, name, element))
            then found == Some(Candidate(fs, name, element)) && m.dot == (m0.dot || IsDot(fs, element))
            else found == None && m == Remember(fs, name, element, m0)
  {
    m := m0;
    var xpath := if path[0] == '~' then fs.tilde(path) else path;
    if !m.dot && xpath != "" && xpath[0] == '.' {
      m := m.(dot := fs.sameAsDot(xpath));
    }
    var full_path := MakePath(xpath, name);
    var status := fs.status(full_path);
    if status == Missing {
      return None, m;
    }
    if status == Plain(true) {
      return Some(full_path), m.(loser := None);
    }
    if m.loser.None? && !fs.ignored(full_path) {
      m := m.(loser := Some(full_path));
    }
    found := None;
  }

  /** find_user_command_in_path, for FS_EXEC_PREFERRED and FS_NODIRS and a name without a slash */
  method FindUserCommandInPath(fs: Files, name: string, path_list: Option<string>) returns (r: Search)
    ensures r == SearchPath(fs, name, path_list)
  {
    if path_list.None? || path_list.value == "" {
      return Search(Some(name), false, false);
    }
    var list, path_index := path_list.value, 0;
    var m := Memory(None, false);
    while path_index < |list|
      invariant path_index <= |list|
                && SearchFrom(fs, name, Units(list, path_index), m) == SearchPath(fs, name, path_list)
      decreases |list| - path_index
    {
      var unit, next := ExtractColonUnit(list, path_index);
      if unit.None? {
        break;
      }
      var found;
      EmptyIsDot(fs, name, unit.value);
      found, m := FindInPathElement(fs, name, if unit.value == "" then "." else unit.value, m);
      if found.Some? {
        return Search(found, true, m.dot);
      }
      assert Units(list, path_index)[1..] == Units(list, next);
      path_index := next;
    }
    if m.loser.Some? && fs.status(m.loser.value) == Directory {
      m := m.(loser := None);
    }
    r := Search(m.loser, false, m.dot);
  }

  lemma EmptyIsDot(fs: Files, name: string, element: string)
    ensures element == "" ==>
              Candidate(fs, name, element) == Candidate(fs, name, ".") && IsDot(fs, element) == IsDot(fs, ".")
              && forall m :: Remember(fs, name, element, m) == Remember(fs, name, ".", m)
  {
  }

  // ---------- remembering ----------

  /** An entry of hashed_filenames. */
  datatype PathData = PathData(path: string, chkdot: bool, relpath: bool)

  function Entry(path: string, dot: bool): PathData {
    PathData(path, dot, path == "" || path[0] != '/')
  }

  predicate StartsDotSlash(s: string) {
    |s| >= 2 && s[0] == '.' && s[1] == '/'
  }

  function Dotted(s: string): string {
    if StartsDotSlash(s) then s else "./" + s
  }

  /** The position of the last slash, or |s|. */
  function LastSlash(s: string, n: nat): nat
    requires n <= |s|
  {
    if n == 0 then |s| else if s[n - 1] == '/' then n - 1 else LastSlash(s, n - 1)
  }

  /** phash_search, for the entry d of name. */
  function Recall(fs: Files, name: string, d: PathData): Option<string> {
    if d.chkdot || d.relpath then
      var dotted := Dotted(if d.relpath then d.path else name);
      if Runs(fs, dotted) then Some(dotted)
      else if d.path != "" && d.path[0] == '.' then
        var k := LastSlash(d.path, |d.path|);
        if k < |d.path| && fs.sameAsDot(d.path[..k]) then None else Some(d.path)
      else Some(d.path)
    else Some(d.path)
  }

  /** The last slash of s is at k. */
  predicate LastSlashAt(s: string, k: nat) {
    k < |s| && s[k] == '/' && forall j :: k < j < |s| ==> s[j] != '/'
  }

  lemma {:induction false} LastSlashIs(s: string, k: nat, n: nat)
    requires LastSlashAt(s, k) && k < n <= |s|
    ensures LastSlash(s, n) == k
    decreases n
  {
    if n - 1 > k {
      LastSlashIs(s, k, n - 1);
    }
  }

  /** What the table answers for a file that was found as p, whatever has become of the files since: an absolute p, but
      `./name` where that can be executed and the search has looked into the current directory; and for a relative p,
      p from the current directory if that can be executed, and otherwise p, unless it is in the current directory. */
  lemma RecallLaw(fs: Files, name: string, p: string, dot: bool, k: nat)
    requires p != "" && LastSlashAt(p, k) && !StartsDotSlash(name)
    ensures var r := Recall(fs, name, Entry(p, dot));
            if p[0] == '/' then
              r == Some(if dot && fs.status("./" + name) == Plain(true) then "./" + name else p)
            else
              var q := if |p| >= 2 && p[0] == '.' && p[1] == '/' then p else "./" + p;
              r == if fs.status(q) == Plain(true) then Some(q)
                   else if p[0] == '.' && fs.sameAsDot(p[..k]) then None else Some(p)
  {
    LastSlashIs(p, k, |p|);
  }

  /** The hash table of commands; the file system and $PATH stay as they are. */
  class CommandTable {
    const fs: Files
    const path: Option<string>
    const hashing_enabled: bool
    /** posixly_correct || check_hashed_filenames */
    const checking: bool
    var hashed: map<string, PathData>

    constructor (fs: Files, path: Option<string>, hashing_enabled: bool, checking: bool)
      ensures Coherent() && this.fs == fs && this.path == path && this.checking == checking
    {
      this.fs, this.path, this.hashing_enabled, this.checking, hashed := fs, path, hashing_enabled, checking, map[];
    }

    /** Every entry is what a search finds. */
    predicate Coherent()
      reads this
    {
      forall name :: name in hashed ==>
        var r := SearchPath(fs, name, path);
        && !HasSlash(name) && r.path.Some? && path.Some? && path.value != ""
        && hashed[name] == Entry(r.path.value, r.dot) && (checking ==> r.executable)
    }

    /** What the table answers for a name; None makes search_for_command search $PATH. */
    function Remembered(name: string): Option<string>
      reads this
    {
      if !hashing_enabled || HasSlash(name) || name !in hashed then None
      else
        var r := Recall(fs, name, hashed[name]);
        if r.Some? && checking && !Runs(fs, r.value) then None else r
    }

    /** Whether the result of a search is put in the table: anything that was found, but under `checking`, or where the
        result is the name itself, only what is known to be executable. */
    predicate Storable(name: string, hash: bool) {
      var r := SearchPath(fs, name, path);
      hash && hashing_enabled && r.path.Some? && (r.executable || (r.path.value != name && !checking))
    }

    function Found(name: string): PathData
      requires SearchPath(fs, name, path).path.Some?
    {
      Entry(SearchPath(fs, name, path).path.value, SearchPath(fs, name, path).dot)
    }

    /** An entry that no longer leads to an executable file, where that is checked, is thrown away. */
    predicate Stale(name: string)
      requires name in hashed
      reads this
    {
      var r := Recall(fs, name, hashed[name]);
      hashing_enabled && checking && r.Some? && !Runs(fs, r.value)
    }

    /** search_for_command; `hash` is CMDSRCH_HASH. */
    method SearchForCommand(name: string, hash: bool) returns (command: Option<string>)
      requires Coherent()
      modifies this`hashed
      ensures Coherent()
      ensures command == if HasSlash(name) then Some(name)
                         else if old(Remembered(name)).Some? then old(Remembered(name))
                             else SearchPath(fs, name, path).path
      ensures forall other :: other != name ==> (other in hashed <==> other in old(hashed))
      ensures hashed == if HasSlash(name) || old(Remembered(name)).Some? then old(hashed)
                        else if Storable(name, hash) then old(hashed)[name := Found(name)]
                        else if name in old(hashed) && old(Stale(name)) then old(hashed) - {name} else old(hashed)
    {
      var hashed_file: Option<string> := None;
      if !HasSlash(name) && hashing_enabled && name in hashed {
        hashed_file := Recall(fs, name, hashed[name]);
      }
      if hashed_file.Some? && checking {
        if !Runs(fs, hashed_file.value) {
          hashed := hashed - {name};
          hashed_file := None;
        }
      }
      if hashed_file.Some? {
        return hashed_file;
      }
      if HasSlash(name) {
        return Some(name);
      }
      var r := FindUserCommandInPath(fs, name, path);
      if path.Some? && path.value != "" {
        ExecutableRuns(fs, name, Units(path.value, 0), Memory(None, false));
      }
      if r.path.Some? && hashing_enabled && hash {
        if r.path.value == name || checking {
          if r.executable {
            hashed := hashed[name := Entry(r.path.value, r.dot)];
          }
        } else {
          hashed := hashed[name := Entry(r.path.value, r.dot)];
        }
      }
      command := r.path;
    }
  }

  // ---------- what remembering changes ----------

  /** A directory that is the current one holds what the current one holds. */
  predicate DotsAgree(fs: Files, name: string, elements: seq<string>) {
    forall k :: 0 <= k < |elements| && IsDot(fs, elements[k])
        ==> fs.status(Candidate(fs, name, elements[k])) == fs.status("./" + name)
  }

  /** A pathname that `./` in front turns into another: one that begins with neither / nor `./`. */
  predicate Altered(path: string) {
    path != "" && path[0] != '/' && !StartsDotSlash(path)
  }

  /** After the current directory has been searched, an absolute result means that the command is not there. */
  lemma {:induction false} NotInDot(fs: Files, name: string, elements: seq<string>, m: Memory)
    requires DotsAgree(fs, name, elements) && (m.dot ==> !Runs(fs, "./" + name))
    requires m.loser.Some? ==> !Runs(fs, m.loser.value)
    ensures var r := SearchFrom(fs, name, elements, m);
            r.dot && r.path.Some? && r.path.value != "" && r.path.value[0] == '/' ==> !Runs(fs, "./" + name)
    decreases |elements|
  {
    if elements != [] {
      var c := Candidate(fs, name, elements[0]);
      assert IsDot(fs, elements[0]) ==> c[0] == '.';
      if !Runs(fs, c) {
        assert DotsAgree(fs, name, elements[1..]) by {
          forall k | 0 <= k < |elements[1..]| ensures elements[1..][k] == elements[k + 1] {
          }
        }
        NotInDot(fs, name, elements[1..], Remember(fs, name, elements[0], m));
      }
    }
  }

  /** A remembered command is the one that a search finds, except that an executable one whose pathname
      begins with neither / nor `./` gets a `./` in front. */
  lemma RememberedAnswer(fs: Files, name: string, path: string)
    requires path != "" && DotsAgree(fs, name, Units(path, 0)) && !HasSlash(name)
    requires var r := SearchPath(fs, name, Some(path));
             r.path.Some? && (Altered(r.path.value) ==> fs.status("./" + r.path.value) == fs.status(r.path.value))
    ensures var r := SearchPath(fs, name, Some(path));
            var answer := Recall(fs, name, Entry(r.path.value, r.dot));
            if r.executable && Altered(r.path.value) then answer == Some("./" + r.path.value)
            else answer == None || answer == r.path
  {
    var elements := Units(path, 0);
    ExecutableRuns(fs, name, elements, Memory(None, false));
    NotInDot(fs, name, elements, Memory(None, false));
    var k := ResultIsCandidate(fs, name, elements, Memory(None, false));
    assert |name| >= 2 ==> name[1] in name;
  }

  /** With every directory of $PATH absolute or exactly `.`, remembering changes no answer: any run of searches
      finds what searches of $PATH find. */
  lemma RememberingIsInvisible(t: CommandTable, name: string)
    requires t.Coherent() && !HasSlash(name) && t.path.Some? && DirectoriesAbsoluteOrDot(t.fs, t.path.value)
    ensures var r := t.Remembered(name); r.None? || r == SearchPath(t.fs, name, t.path).path
  {
    if t.Remembered(name).Some? {
      var path, fs := t.path.value, t.fs;
      var elements := Units(path, 0);
      assert DotsAgree(fs, name, elements) by {
        forall k | 0 <= k < |elements|
            && IsDot(fs, elements[k]) ensures Candidate(fs, name, elements[k]) == "./" + name {
          assert elements[k] in elements;
        }
      }
      var k := ResultIsCandidate(fs, name, elements, Memory(None, false));
      assert elements[k] in elements;
      RememberedAnswer(fs, name, path);
    }
  }

  /** Every directory of $PATH is absolute or exactly `.` (or empty). */
  predicate DirectoriesAbsoluteOrDot(fs: Files, path: string) {
    forall e :: e in Units(path, 0) ==> var d := DirectoryOf(fs, e); d == "." || (d != "" && d[0] == '/')
  }

  /** Any run of searches with such a $PATH answers as if nothing was remembered. */
  method SearchAll(t: CommandTable, names: seq<string>, hash: bool) returns (commands: seq<Option<string>>)
    requires t.Coherent() && t.path.Some? && DirectoriesAbsoluteOrDot(t.fs, t.path.value)
    modifies t`hashed
    ensures t.Coherent() && |commands| == |names|
    ensures forall k :: 0 <= k < |names| ==>
              commands[k] == if HasSlash(names[k]) then Some(names[k]) else SearchPath(t.fs, names[k], t.path).path
  {
    commands := [];
    for n := 0 to |names|
      invariant t.Coherent() && |commands| == n
      invariant forall k :: 0 <= k < n ==>
                  commands[k] == if HasSlash(names[k]) then Some(names[k]) else SearchPath(t.fs, names[k], t.path).path
    {
      hide SearchPath;
      if !HasSlash(names[n]) {
        RememberingIsInvisible(t, names[n]);
      }
      var command := t.SearchForCommand(names[n], hash);
      commands := commands + [command];
    }
  }

  /** With a relative directory in $PATH it can change one: `bin/ls` is remembered as `./bin/ls`. */
  lemma RelativeDirectoryIsAltered()
    ensures var fs := Files((p: string) => if p == "bin/ls" || p == "./bin/ls" then Plain(true) else Missing,
                            (d: string) => d == ".", (d: string) => d, (p: string) => false);
            var r := SearchPath(fs, "ls", Some("bin"));
            r.path == Some("bin/ls") && Recall(fs, "ls", Entry("bin/ls", r.dot)) == Some("./bin/ls")
  {
    var path := "bin";
    assert ColonEnd(path, 3) == 3 && ColonEnd(path, 0) == 3 && path[0..3] == path;
    UnitsStep(path, 0, 0);
    UnitsEnd(path);
    assert Units(path, 0) == ["bin"];
  }
}
