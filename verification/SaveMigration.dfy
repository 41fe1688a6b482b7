/**
  apply_migration of scripts/migrate_cartridge_save_namespace.py: copy planned saves to free names,
  and take the copies back if a later one fails.  Paths map to files, a file being an inode number
  and its bytes; two names may share a file.  `faults` decides which operations fail (always
  before their effect), `tokens` supplies temporary and quarantine names, and `exclusiveRename`
  says whether the platform renames without replacing.  Nobody else writes to the card meanwhile.
*/
module SaveMigration {
  import opened Outcomes

  type Path = string
  type Bytes = seq<int>
  datatype File = File(inode: nat, bytes: Bytes)
  type Tree = map<Path, File>

  datatype Planned = Planned(destination: Path, payload: Bytes)
  datatype Created = Created(name: Path, file: File)

  /** The verdict of looking at one destination; Unusable stands for every exception. */
  datatype Destination = Copy | Identical | Unusable

  /** An error raised by a write is that of its last step, which may be the removal of a temporary file. */
  datatype Write = Installed(file: File) | NotInstalled(unremoved: Option<Path>)

  datatype Step = Copied | AlreadyThere | Broken(unremoved: Option<Path>)

  datatype Outcome =
    | Applied(copied: seq<Path>, identical: seq<Path>)
    | Failed(unremoved: Option<Path>)
    | FailedWithLeftovers(leftovers: seq<Created>)

  /** The destinations a run must create on a card that already has the names `known`, in plan order. */
  function NewNames(known: set<Path>, plan: seq<Planned>): (r: seq<Path>) {
    if plan == [] then [] else
      var before, last := NewNames(known, plan[..|plan| - 1]), plan[|plan| - 1].destination;
      if last in known || last in before then before else before + [last]
  }

  ghost predicate Planning(plan: seq<Planned>, name: Path) {
    exists i :: 0 <= i < |plan| && plan[i].destination == name
  }

  /** NewNames lists exactly the planned names the card lacks, each once. */
  lemma {:induction false} NewNamesExact(known: set<Path>, plan: seq<Planned>)
    ensures forall n :: n in NewNames(known, plan) <==> Planning(plan, n) && n !in known
    ensures forall i, j :: 0 <= i < j < |NewNames(known, plan)| ==> NewNames(known, plan)[i] != NewNames(known, plan)[j]
  {
    if plan != [] {
      var front := plan[..|plan| - 1];
      NewNamesExact(known, front);
      assert Planning(plan, plan[|plan| - 1].destination);
      forall n ensures Planning(plan, n) <==> Planning(front, n) || n == plan[|plan| - 1].destination {
        if Planning(front, n) {
          var i :| 0 <= i < |front| && front[i].destination == n;
          assert plan[i].destination == n;
        }
        if Planning(plan, n) {
          var i :| 0 <= i < |plan| && plan[i].destination == n;
          assert i < |front| ==> front[i].destination == n;
        }
      }
    }
  }

  /** The other destinations of the plan, in plan order: a copy of them is there when their turn comes. */
  function OldNames(known: set<Path>, plan: seq<Planned>): (r: seq<Path>) {
    if plan == [] then [] else
      var front, last := plan[..|plan| - 1], plan[|plan| - 1].destination;
      var before := OldNames(known, front);
      if last in known || last in NewNames(known, front) then before + [last] else before
  }

  /** The destination of the j-th planned file is on the card, or that of an earlier planned file. */
  ghost predicate HeldBefore(known: set<Path>, plan: seq<Planned>, j: nat)
    requires j < |plan|
  {
    plan[j].destination in known || exists i :: 0 <= i < j && plan[i].destination == plan[j].destination
  }

  /** `names` are the destinations of the planned files at these ascending positions: all with HeldBefore == held. */
  ghost predicate Selects(known: set<Path>, plan: seq<Planned>, held: bool, positions: seq<nat>, names: seq<Path>)
  {
    && |positions| == |names|
    && (forall j, k :: 0 <= j < k < |positions| ==> positions[j] < positions[k])
    && (forall k :: 0 <= k < |positions| ==> positions[k] < |plan| && names[k] == plan[positions[k]].destination)
    && (forall j :: 0 <= j < |plan| ==> (j in positions <==> HeldBefore(known, plan, j) == held))
  }

  function Destinations(plan: seq<Planned>): (r: seq<Path>) {
    seq(|plan|, i requires 0 <= i < |plan| => plan[i].destination)
  }

  lemma HeldBeforePrefix(known: set<Path>, plan: seq<Planned>, n: nat, j: nat)
    requires j < n <= |plan|
    ensures HeldBefore(known, plan, j) <==> HeldBefore(known, plan[..n], j)
  {
    var front := plan[..n];
    forall i | 0 <= i < j
      ensures front[i].destination == front[j].destination <==> plan[i].destination == plan[j].destination
    {
    }
  }

  /** The last planned file has been held before exactly when it is no new name. */
  lemma HeldBeforeLast(known: set<Path>, plan: seq<Planned>)
    requires plan != []
    ensures var front, last := plan[..|plan| - 1], plan[|plan| - 1].destination;
            HeldBefore(known, plan, |plan| - 1) <==> last in known || last in NewNames(known, front)
  {
    var front, last := plan[..|plan| - 1], plan[|plan| - 1].destination;
    NewNamesExact(known, front);
    if Planning(front, last) {
      var i :| 0 <= i < |front| && front[i].destination == last;
      assert plan[i].destination == last;
    }
    if i :| 0 <= i < |front| && plan[i].destination == last { assert front[i].destination == last; }
  }

  lemma SelectsOneMore(known: set<Path>, plan: seq<Planned>, held: bool, positions: seq<nat>, names: seq<Path>)
    requires plan != [] && Selects(known, plan[..|plan| - 1], held, positions, names)
    ensures if HeldBefore(known, plan, |plan| - 1) == held
            then Selects(known, plan, held, positions + [|plan| - 1], names + [plan[|plan| - 1].destination])
            else Selects(known, plan, held, positions, names)
  {
    var last := |plan| - 1;
    forall j | 0 <= j < last ensures HeldBefore(known, plan, j) <==> HeldBefore(known, plan[..last], j) {
      HeldBeforePrefix(known, plan, last, j);
    }
    assert last !in positions;
  }

  /**
    NewNames and OldNames deal out the plan: in plan order, the destinations held by neither the card
    nor an earlier planned file, and those held by one of them.
  */
  lemma {:induction false} NamesDealOut(known: set<Path>, plan: seq<Planned>) returns (news: seq<nat>, olds: seq<nat>)
    ensures Selects(known, plan, false, news, NewNames(known, plan))
    ensures Selects(known, plan, true, olds, OldNames(known, plan))
  {
    if plan == [] { return [], []; }
    var front := plan[..|plan| - 1];
    news, olds := NamesDealOut(known, front);
    HeldBeforeLast(known, plan);
    SelectsOneMore(known, plan, false, news, NewNames(known, front));
    SelectsOneMore(known, plan, true, olds, OldNames(known, front));
    if HeldBefore(known, plan, |plan| - 1) { olds := olds + [|plan| - 1]; } else { news := news + [|plan| - 1]; }
  }

  /** Between them they have every destination as often as the plan. */
  lemma {:induction false} NamesAreDestinations(known: set<Path>, plan: seq<Planned>)
    ensures multiset(NewNames(known, plan)) + multiset(OldNames(known, plan)) == multiset(Destinations(plan))
  {
    if plan != [] {
      var front, last := plan[..|plan| - 1], plan[|plan| - 1].destination;
      NamesAreDestinations(known, front);
      assert Destinations(plan) == Destinations(front) + [last];
    }
  }

  /** The bytes under each name. */
  function Contents(tree: Tree): (held: map<Path, Bytes>)
    ensures held.Keys == tree.Keys && forall n :: n in tree ==> held[n] == tree[n].bytes
  {
    map n | n in tree :: tree[n].bytes
  }

  /** A card that holds `p` already needs no copy of it. */
  ghost predicate Holds(tree: Tree, p: Planned) {
    p.destination in tree && tree[p.destination].bytes == p.payload
  }

  ghost predicate HoldsAll(tree: Tree, plan: seq<Planned>) {
    forall i :: 0 <= i < |plan| ==> Holds(tree, plan[i])
  }

  /** No planned file disagrees with the card or with an earlier planned file. */
  ghost predicate Agreeable(tree: Tree, plan: seq<Planned>) {
    && (forall i :: 0 <= i < |plan| && plan[i].destination in tree ==>
          tree[plan[i].destination].bytes == plan[i].payload)
    && (forall i, j :: 0 <= i < j < |plan| && plan[i].destination == plan[j].destination ==>
          plan[i].payload == plan[j].payload)
  }

  /** The first n created files are exactly the files of `made`, each listed once. */
  ghost predicate ListedUpTo(created: seq<Created>, n: nat, made: Tree)
    requires n <= |created|
  {
    if n == 0 then made == map[] else
      var c := created[n - 1];
      c.name in made && made[c.name] == c.file && ListedUpTo(created, n - 1, made - {c.name})
  }

  ghost predicate Listed(created: seq<Created>, made: Tree) { ListedUpTo(created, |created|, made) }

  function Names(files: seq<Created>): (r: set<Path>) { set c | c in files :: c.name }

  function Files(files: seq<Created>): (r: set<File>) { set c | c in files :: c.file }

  /** What is left of this run's files is still to be taken back, was there before, or is listed as left over. */
  ghost predicate Accounted(made: Tree, rest: Tree, strays: Tree, before: Tree, leftovers: seq<Created>) {
    && made.Keys <= rest.Keys + Names(leftovers)
    && forall n :: n in strays ==> n in before || strays[n] in Files(leftovers)
  }

  lemma OneLessAccounted(made: Tree, rest: Tree, strays: Tree, before: Tree, leftovers: seq<Created>,
                         made': Tree, strays': Tree, c: Created, gone: bool)
    requires Accounted(made, rest, strays, before, leftovers)
    requires made' - {c.name} == made - {c.name} && (gone ==> c.name !in made' && strays' == strays)
    requires Extends(strays, strays') && forall n :: n in strays' && n !in strays ==> strays'[n] == c.file
    ensures Accounted(made', rest - {c.name}, strays', before, if gone then leftovers else leftovers + [c])
  {
    var leftovers' := if gone then leftovers else leftovers + [c];
    forall n | n in made' ensures n in (rest - {c.name}).Keys + Names(leftovers') {
      if n == c.name { assert c in leftovers'; } else { assert n in made' - {c.name}; }
    }
    assert !gone ==> c in leftovers';
  }

  /** `leftovers` are the created files at these positions, which descend to `from` or above. */
  ghost predicate Backwards(created: seq<Created>, leftovers: seq<Created>, positions: seq<nat>, from: nat) {
    && |positions| == |leftovers|
    && (forall j, k :: 0 <= j < k < |positions| ==> positions[k] < positions[j])
    && forall k :: 0 <= k < |positions| ==> from <= positions[k] < |created| && leftovers[k] == created[positions[k]]
  }

  lemma {:induction false} ListedLonger(created: seq<Created>, n: nat, made: Tree, c: Created)
    requires n <= |created| && ListedUpTo(created, n, made)
    ensures ListedUpTo(created + [c], n, made)
  {
    if n > 0 { ListedLonger(created, n - 1, made - {created[n - 1].name}, c); }
  }

  /** The list of created files grows with the map. */
  lemma OneMorePublished(created: seq<Created>, made: Tree, c: Created)
    requires Listed(created, made) && c.name !in made
    ensures Listed(created + [c], made[c.name := c.file])
  {
    ListedLonger(created, |created|, made, c);
    assert made[c.name := c.file] - {c.name} == made;
  }

  lemma OneLessBackwards(created: seq<Created>, leftovers: seq<Created>, positions: seq<nat>, i: nat)
    requires i < |created| && Backwards(created, leftovers, positions, i + 1)
    ensures Backwards(created, leftovers, positions, i)
    ensures Backwards(created, leftovers + [created[i]], positions + [i], i)
  {
  }

  predicate IsCopyOf(c: Created, p: Planned) { c.name == p.destination && c.file.bytes == p.payload }

  /** Every created file holds what the plan has for its name. */
  ghost predicate FromPlan(created: seq<Created>, plan: seq<Planned>) {
    forall i :: 0 <= i < |created| ==> Planned(created[i].name, created[i].file.bytes) in plan
  }

  lemma OneMoreFromPlan(created: seq<Created>, plan: seq<Planned>, i: nat, c: Created)
    requires FromPlan(created, plan) && i < |plan| && plan[i] == Planned(c.name, c.file.bytes)
    ensures FromPlan(created + [c], plan)
  {
    assert plan[i] in plan;
  }

  /** `after` keeps every name and file of `before`. */
  ghost predicate Extends(before: Tree, after: Tree) {
    forall n :: n in before ==> n in after && after[n] == before[n]
  }

  lemma SumExtends(start: Tree, made: Tree, strays: Tree, made': Tree, strays': Tree)
    requires Extends(made, made') && Extends(strays, strays')
    requires made'.Keys !! strays'.Keys && start.Keys !! made'.Keys && start.Keys !! strays'.Keys
    ensures Extends(start + made + strays, start + made' + strays')
  {
  }

  lemma SumWith(start: Tree, made: Tree, strays: Tree, d: Path, file: File)
    requires d !in strays
    ensures start + made[d := file] + strays == (start + made + strays)[d := file]
  {
  }

  lemma ContentsWith(tree: Tree, d: Path, file: File)
    ensures Contents(tree[d := file]) == Contents(tree)[d := file.bytes]
  {
  }

  lemma OneMoreHeld(before: Tree, after: Tree, plan: seq<Planned>, i: nat)
    requires i < |plan| && HoldsAll(before, plan[..i]) && Extends(before, after) && Holds(after, plan[i])
    ensures HoldsAll(after, plan[..i + 1])
  {
    var front := plan[..i + 1];
    forall k | 0 <= k < |front| ensures Holds(after, front[k]) {
      if k < i { assert Holds(before, plan[..i][k]); }
    }
  }

  ghost predicate Dealt(known: set<Path>, plan: seq<Planned>, copied: seq<Path>, identical: seq<Path>) {
    copied == NewNames(known, plan) && identical == OldNames(known, plan) && |copied| + |identical| == |plan|
  }

  lemma NothingDealt(known: set<Path>, plan: seq<Planned>)
    ensures Dealt(known, plan[..0], [], [])
  {
  }

  lemma OneMoreDealt(known: set<Path>, plan: seq<Planned>, i: nat, copied: seq<Path>, identical: seq<Path>)
    requires i < |plan| && Dealt(known, plan[..i], copied, identical)
    ensures var d := plan[i].destination;
            if d in known || d in copied then Dealt(known, plan[..i + 1], copied, identical + [d])
            else Dealt(known, plan[..i + 1], copied + [d], identical)
  {
    assert plan[..i + 1][..i] == plan[..i];
  }

  /** A name held with other contents contradicts the plan, or what the plan said of it earlier. */
  lemma NotAgreeable(start: Tree, tree: Tree, plan: seq<Planned>, i: nat)
    requires i < |plan| && Extends(start, tree) && HoldsAll(tree, plan[..i])
    requires plan[i].destination in tree && !Holds(tree, plan[i])
    requires plan[i].destination in start || plan[i].destination in NewNames(start.Keys, plan[..i])
    ensures !Agreeable(start, plan)
  {
    if plan[i].destination !in start {
      NewNamesExact(start.Keys, plan[..i]);
      var k :| 0 <= k < i && plan[..i][k].destination == plan[i].destination;
      assert Holds(tree, plan[..i][k]);
      assert plan[k].payload != plan[i].payload;
    }
  }

  /** The first planned file that the card does not already hold is one it holds with other contents. */
  ghost predicate RefusesFirst(start: Tree, plan: seq<Planned>) {
    exists i :: 0 <= i < |plan| && HoldsAll(start, plan[..i]) && plan[i].destination in start && !Holds(start, plan[i])
  }

  /** A run that stops at a name held with other contents has published nothing exactly when that name comes first. */
  lemma RefusalIsFirst(start: Tree, tree: Tree, made: Tree, plan: seq<Planned>, i: nat)
    requires i < |plan| && Extends(start, tree) && HoldsAll(tree, plan[..i])
    requires plan[i].destination in tree && !Holds(tree, plan[i])
    requires forall n :: n in made <==> n in NewNames(start.Keys, plan[..i])
    requires made == map[] ==> tree == start
    ensures made == map[] <==> RefusesFirst(start, plan)
  {
    NewNamesExact(start.Keys, plan[..i]);
    if made != map[] {
      var n :| n in made;
      var j :| 0 <= j < i && plan[..i][j].destination == n;
      forall k | 0 <= k < |plan| && HoldsAll(start, plan[..k]) && plan[k].destination in start
        ensures Holds(start, plan[k])
      {
        HeldPrefix(start, plan, k, j);
        assert Holds(tree, plan[..i][k]);
      }
    }
  }

  lemma HeldPrefix(start: Tree, plan: seq<Planned>, k: nat, j: nat)
    requires k <= |plan| && j < |plan| && HoldsAll(start, plan[..k]) && plan[j].destination !in start
    ensures k <= j
  {
    assert j < k ==> Holds(start, plan[..k][j]);
  }

  class Card {
    const start: Tree                 // the card when the run began
    const exclusiveRename: bool
    const faults: iset<nat>
    const tokens: nat -> Path
    var clock: nat
    var nextInode: nat
    var tree: Tree
    ghost var made: Tree              // destinations this run has published and not taken back
    ghost var strays: Tree            // other names this run has left behind

    /** What the card held at the start is there still, name for name, beside what this run has added. */
    ghost predicate Valid()
      reads this
    {
      && start.Keys !! made.Keys && start.Keys !! strays.Keys && made.Keys !! strays.Keys
      && tree == start + made + strays
    }

    constructor (tree: Tree, exclusiveRename: bool, nextInode: nat, faults: iset<nat>, tokens: nat -> Path)
      ensures Valid() && start == this.tree == tree && made == strays == map[] && clock == 0
      ensures this.exclusiveRename == exclusiveRename && this.faults == faults && this.tokens == tokens
    {
      start, this.exclusiveRename, this.faults, this.tokens := tree, exclusiveRename, faults, tokens;
      clock, this.nextInode, this.tree := 0, nextInode, tree;
      made, strays := map[], map[];
    }

    /** No operation fails from now on, and the tokens are new names. */
    ghost predicate Undisturbed()
      reads this
    {
      && (forall n: nat :: clock <= n ==> n !in faults && tokens(n) !in tree)
      && (forall m: nat, n: nat :: m < n ==> tokens(m) != tokens(n))
    }

    // Which operations fail, told from the faults and tokens alone.  `c` is the clock at which a
    // step begins, and `held` are the names on the card then.

    predicate Quiet2(c: nat) { c !in faults && c + 1 !in faults }

    predicate Quiet4(c: nat) { Quiet2(c) && Quiet2(c + 2) }

    /** The clock of the first new name among the tokens drawn from c until `end`. */
    function FirstNew(held: set<Path>, c: nat, end: nat): (m: Option<nat>)
      ensures m.Some? ==> c <= m.value < end
      decreases end - c
    {
      if end <= c then None else if tokens(c) !in held then Some(c) else FirstNew(held, c + 1, end)
    }

    /** Of write, flush, case check and install from c on, the first that fails is followed by a failing removal. */
    predicate FailsTwice(c: nat) {
      if c in faults then c + 1 in faults
      else if c + 1 in faults then c + 2 in faults
      else if c + 2 in faults then c + 3 in faults
      else c + 3 in faults && c + 4 in faults
    }

    /** The temporary file opens, and fails twice after that. */
    predicate WriteLeaves(held: set<Path>, c: nat) {
      var m := FirstNew(held, c, c + 32);
      m.Some? && m.value + 1 !in faults && FailsTwice(m.value + 2)
    }

    /** Open, write, flush, case check and install all go through. */
    predicate WriteGoes(held: set<Path>, c: nat) {
      var m := FirstNew(held, c, c + 32);
      m.Some? && m.value + 1 !in faults && Quiet4(m.value + 2)
    }

    /** The clock after that; a link leaves the temporary name to be removed. */
    function WriteEnd(held: set<Path>, c: nat): nat
      requires WriteGoes(held, c)
    {
      FirstNew(held, c, c + 32).value + if exclusiveRename then 6 else 7
    }

    /** Parent and destination are read, the write fails, and so does the removal of its temporary file. */
    predicate OneLeaves(held: set<Path>, c: nat, p: Planned) {
      p.destination !in held && Quiet2(c) && WriteLeaves(held, c + 2)
    }

    /** The file is copied, confirmed and verified. */
    predicate OneCopies(held: set<Path>, c: nat, p: Planned) {
      p.destination !in held && Quiet2(c) && WriteGoes(held, c + 2) && Quiet2(WriteEnd(held, c + 2))
    }

    /** Where the first new name for a quarantine is drawn, of the tries from c to `end`; none once looking fails. */
    function NewQuarantine(held: set<Path>, c: nat, end: nat): (m: Option<nat>)
      ensures m.Some? ==> c <= m.value < end
      decreases end - c
    {
      if end <= c || c + 1 in faults then None
      else if tokens(c) !in held then Some(c) else NewQuarantine(held, c + 2, end)
    }

    /** A published file is taken back from c on: moved aside, read, looked at once more and removed. */
    predicate TakesBack(held: set<Path>, c: nat) {
      var m := NewQuarantine(held, c, c + 64);
      exclusiveRename && m.Some? && m.value + 2 !in faults && Quiet2(m.value + 3) && m.value + 5 !in faults
    }

    /**
      Whether a run that comes to the i-th planned file with these contents at clock c leaves a
      temporary file behind, while every file it copies before can still be taken back.
    */
    predicate LeavesTemporary(held: map<Path, Bytes>, c: nat, plan: seq<Planned>, i: nat)
      decreases |plan| - i
    {
      i < |plan| &&
      var p := plan[i];
      if p.destination in held
      then held[p.destination] == p.payload && Quiet2(c) && LeavesTemporary(held, c + 2, plan, i + 1)
      else if exclusiveRename && OneCopies(held.Keys, c, p)
      then LeavesTemporary(held[p.destination := p.payload], WriteEnd(held.Keys, c + 2) + 2, plan, i + 1)
      else OneLeaves(held.Keys, c, p)
    }

    /** What the step taken on the first planned file says about the operations, and where it ends. */
    predicate Tells(held: map<Path, Bytes>, c: nat, p: Planned, step: Step, end: nat) {
      && (step.Broken? && step.unremoved.Some? <==> OneLeaves(held.Keys, c, p))
      && (step == AlreadyThere <==> Quiet2(c) && p.destination in held && held[p.destination] == p.payload)
      && (step == Copied <==> OneCopies(held.Keys, c, p))
      && (step == AlreadyThere ==> end == c + 2)
      && (step == Copied ==> end == WriteEnd(held.Keys, c + 2) + 2)
    }

    lemma TellsTheRest(held: map<Path, Bytes>, c: nat, plan: seq<Planned>, i: nat, step: Step, end: nat)
      requires i < |plan| && Tells(held, c, plan[i], step, end)
      ensures LeavesTemporary(held, c, plan, i) <==>
        match step
        case Broken(unremoved) => unremoved.Some?
        case AlreadyThere => LeavesTemporary(held, end, plan, i + 1)
        case Copied =>
          exclusiveRename && LeavesTemporary(held[plan[i].destination := plan[i].payload], end, plan, i + 1)
    {
    }

    /** The operations n and n + 1 do not both fail. */
    predicate Isolated(n: nat) { !(n in faults && n + 1 in faults) }

    lemma IsolatedFailsOnce(c: nat)
      requires forall n: nat :: Isolated(n)
      ensures !FailsTwice(c)
    {
      assert Isolated(c) && Isolated(c + 1) && Isolated(c + 2) && Isolated(c + 3);
    }

    /** Where no two operations in a row fail, nothing is left. */
    lemma {:induction false} IsolatedLeavesNothing(held: map<Path, Bytes>, c: nat, plan: seq<Planned>, i: nat)
      requires forall n: nat :: Isolated(n)
      ensures !LeavesTemporary(held, c, plan, i)
      decreases |plan| - i
    {
      if i < |plan| {
        var p := plan[i];
        var m := FirstNew(held.Keys, c + 2, c + 34);
        if m.Some? { IsolatedFailsOnce(m.value + 2); }
        IsolatedLeavesNothing(held, c + 2, plan, i + 1);
        if OneCopies(held.Keys, c, p) {
          IsolatedLeavesNothing(held[p.destination := p.payload], WriteEnd(held.Keys, c + 2) + 2, plan, i + 1);
        }
      }
    }

    /** Token names carry a suffix of their own, so they are no planned destination. */
    ghost predicate Foreign(name: Path) { forall n: nat :: tokens(n) != name }

    ghost predicate StraysAreTokens()
      reads this
    {
      forall n :: n in strays ==> !Foreign(n)
    }

    /** Beside what was there, at most the temporary file `unremoved` has been left. */
    ghost predicate LeftBehind(unremoved: Option<Path>, before: Tree, straysBefore: Tree)
      reads this
    {
      match unremoved
      case None => strays == straysBefore
      case Some(t) => t in strays && t !in before && strays - {t} == straysBefore
    }

    lemma LeftBehindExtends(unremoved: Option<Path>, before: Tree, straysBefore: Tree)
      requires LeftBehind(unremoved, before, straysBefore)
      ensures Extends(straysBefore, strays) && (unremoved == None ==> strays == straysBefore)
    {
      if unremoved.Some? { assert straysBefore == strays - {unremoved.value}; }
    }

    lemma UndisturbedStill(c: nat, before: Tree, d: Path)
      requires forall n: nat :: c <= n ==> n !in faults && tokens(n) !in before
      requires forall m: nat, n: nat :: m < n ==> tokens(m) != tokens(n)
      requires c <= clock && tree.Keys <= before.Keys + {d} && Foreign(d)
      ensures Undisturbed()
    {
    }

    lemma UndisturbedCopies(p: Planned)
      requires Undisturbed() && p.destination !in tree
      ensures OneCopies(tree.Keys, clock, p)
    {
      assert FirstNew(tree.Keys, clock + 2, clock + 34) == Some(clock + 2);
    }

    lemma UndisturbedTakesBack()
      requires Undisturbed() && exclusiveRename
      ensures TakesBack(tree.Keys, clock)
    {
      assert NewQuarantine(tree.Keys, clock, clock + 64) == Some(clock);
    }

    method Attempt() returns (ok: bool)
      modifies this`clock
      ensures ok == (old(clock) !in faults) && clock == old(clock) + 1
    {
      ok := clock !in faults;
      clock := clock + 1;
    }

    method Token() returns (token: Path)
      modifies this`clock
      ensures token == tokens(old(clock)) && clock == old(clock) + 1
      ensures !Foreign(token)
    {
      token := tokens(clock);
      clock := clock + 1;
    }

    method DestinationState(name: Path, payload: Bytes) returns (d: Destination)
      modifies this`clock
      ensures d == if old(clock) in faults then Unusable
                   else if name !in tree then Copy
                   else if tree[name].bytes == payload then Identical else Unusable
      ensures clock == old(clock) + 1
    {
      var ok := Attempt();
      if !ok { return Unusable; }
      if name !in tree { return Copy; }
      return if tree[name].bytes == payload then Identical else Unusable;
    }

    /** Remove one of this run's own names. */
    method Unlink(t: Path) returns (ok: bool)
      requires Valid() && t in strays
      modifies this`clock, this`tree, this`strays
      ensures Valid() && clock == old(clock) + 1 && ok == (old(clock) !in faults)
      ensures strays == if ok then old(strays) - {t} else old(strays)
      ensures strays - {t} == old(strays) - {t}
    {
      ok := Attempt();
      if ok {
        tree, strays := tree - {t}, strays - {t};
        assert tree == start + made + strays;
        assert strays - {t} == strays;
      }
    }

    /** Open a new empty file, failing if the name is taken. */
    method CreateExclusive(t: Path)
      requires Valid() && t !in tree
      modifies this`tree, this`strays, this`nextInode
      ensures Valid() && old(nextInode) <= nextInode
      ensures strays.Keys == old(strays).Keys + {t} && strays - {t} == old(strays) && tree.Keys == old(tree).Keys + {t}
    {
      var file := File(nextInode, []);
      tree, strays, nextInode := tree[t := file], strays[t := file], nextInode + 1;
      assert tree == start + made + strays;
      assert strays - {t} == old(strays);
    }

    /** Draw tokens until one is a new name; 32 tries, as in _atomic_write_new_at. */
    method NewToken() returns (t: Option<Path>)
      modifies this`clock
      ensures var m := FirstNew(tree.Keys, old(clock), old(clock) + 32);
              if m.Some? then t == Some(tokens(m.value)) && clock == m.value + 1 else t == None
      ensures old(clock) <= clock && (t.Some? ==> t.value !in tree && !Foreign(t.value))
    {
      ghost var end := clock + 32;
      for i := 0 to 32
        invariant clock == old(clock) + i && FirstNew(tree.Keys, old(clock), end) == FirstNew(tree.Keys, clock, end)
      {
        var candidate := Token();
        if candidate !in tree { return Some(candidate); }
      }
      return None;
    }

    /** Open a temporary file under a new token name. */
    method CreateTemporary() returns (t: Option<Path>)
      requires Valid() && StraysAreTokens()
      modifies this`clock, this`tree, this`strays, this`nextInode
      ensures Valid() && StraysAreTokens() && old(clock) <= clock && old(nextInode) <= nextInode
      ensures t == None ==> strays == old(strays)
      ensures t.Some? ==> tree.Keys == old(tree).Keys + {t.value}
      ensures t.Some? ==>
        t.value !in old(tree) && t.value in strays && strays - {t.value} == old(strays) && !Foreign(t.value)
      ensures var m := FirstNew(old(tree).Keys, old(clock), old(clock) + 32);
              if m.Some? && m.value + 1 !in faults then t.Some? && clock == m.value + 2 else t == None
    {
      t := NewToken();
      if t == None { return; }
      var ok := Attempt();
      if !ok { return None; }
      CreateExclusive(t.value);
    }

    /** _install_atomic_no_replace_at: by exclusive rename, or else by a hard link that keeps the source. */
    method InstallNoReplace(t: Path, name: Path) returns (ok: bool, consumed: bool)
      requires Valid() && t in strays
      modifies this`clock, this`tree, this`made, this`strays
      ensures Valid() && clock == old(clock) + 1
      ensures ok == (old(clock) !in faults && name !in old(tree)) && consumed == (ok && exclusiveRename)
      ensures made == if ok then old(made)[name := old(strays)[t]] else old(made)
      ensures strays == if consumed then old(strays) - {t} else old(strays)
    {
      consumed := false;
      ok := Attempt();
      if !ok { return; }
      if name in tree { return false, false; }
      var file := tree[t];
      tree, made := tree[name := file], made[name := file];
      assert tree == start + made + strays;
      if exclusiveRename {
        consumed, tree, strays := true, tree - {t}, strays - {t};
        assert tree == start + made + strays;
      }
    }

    /** Write the payload into the temporary file and flush it. */
    method WriteOut(t: Path, payload: Bytes) returns (ok: bool)
      requires Valid() && t in strays
      modifies this`clock, this`tree, this`strays
      ensures Valid() && old(clock) <= clock && strays.Keys == old(strays).Keys
      ensures strays - {t} == old(strays) - {t}
      ensures ok ==> strays[t] == old(strays)[t].(bytes := payload)
      ensures clock == (if old(clock) in faults then old(clock) + 1 else old(clock) + 2) && ok == Quiet2(old(clock))
    {
      ok := Attempt();
      if !ok { return; }
      var file := tree[t].(bytes := payload);
      tree, strays := tree[t := file], strays[t := file];
      assert tree == start + made + strays;
      ok := Attempt();
    }

    /** The four steps up to the publication: write, flush, case check, install. */
    method WriteAndInstall(t: Path, name: Path, payload: Bytes) returns (ok: bool, consumed: bool, file: File)
      requires Valid() && t in strays
      modifies this`clock, this`tree, this`made, this`strays
      ensures Valid() && old(clock) <= clock
      ensures ok == (Quiet4(old(clock)) && name !in old(tree)) && consumed == (ok && exclusiveRename)
      ensures ok ==> clock == old(clock) + 4 && file.bytes == payload
      ensures !ok && name !in old(tree) ==> (clock in faults <==> FailsTwice(old(clock)))
      ensures made == if ok then old(made)[name := file] else old(made)
      ensures strays - {t} == old(strays) - {t} && (t in strays <==> !consumed)
      ensures (consumed ==> strays == old(strays) - {t})
      ensures strays.Keys <= old(strays).Keys
    {
      consumed, file := false, tree[t];
      ok := WriteOut(t, payload);
      if !ok { return; }
      file := tree[t];
      ok := Attempt();                             // no name differing only in case
      if !ok { return; }
      ok, consumed := InstallNoReplace(t, name);
      assert consumed ==> strays == strays - {t};
    }

    /** The rest of _atomic_write_new_at, once the temporary file exists. */
    method FillAndPublish(t: Path, name: Path, payload: Bytes, ghost others: Tree) returns (w: Write)
      requires Valid() && StraysAreTokens() && t in strays && Foreign(name) && t !in others && strays - {t} == others
      modifies this`clock, this`tree, this`made, this`strays
      ensures Valid() && StraysAreTokens() && old(clock) <= clock
      ensures w.Installed? ==> name !in old(tree) && made == old(made)[name := w.file] && w.file.bytes == payload
      ensures w.NotInstalled? ==> made == old(made) && w.unremoved == if t in strays then Some(t) else None
      ensures strays - {t} == others && (t !in strays ==> strays == others)
      ensures w.Installed? ==> clock == old(clock) + if exclusiveRename then 4 else 5
      ensures w.Installed? && (exclusiveRename || clock - 1 !in faults) ==> t !in strays
      ensures name !in old(tree) ==> (w.Installed? <==> Quiet4(old(clock)))
      ensures name !in old(tree) ==> (w.NotInstalled? && t in strays <==> FailsTwice(old(clock)))
    {
      var ok, consumed, file := WriteAndInstall(t, name, payload);
      var removed := consumed;
      if !consumed { removed := Unlink(t); }
      assert strays.Keys <= old(strays).Keys;
      // After publication a failed removal is ignored: the hidden hard link stays.
      w := if ok then Installed(file) else NotInstalled(if removed then None else Some(t));
    }

    /** _atomic_write_new_at: all of the payload under the name, or nothing under it. */
    method AtomicWriteNew(name: Path, payload: Bytes) returns (w: Write, ghost left: Option<Path>)
      requires Valid() && StraysAreTokens() && Foreign(name)
      modifies this`clock, this`tree, this`made, this`strays, this`nextInode
      ensures Valid() && StraysAreTokens() && old(clock) <= clock && LeftBehind(left, old(tree), old(strays))
      ensures w.Installed? ==> name !in old(tree) && made == old(made)[name := w.file] && w.file.bytes == payload
      ensures w.NotInstalled? ==> made == old(made) && w.unremoved == left
      ensures w.Installed? ==> old(clock) < clock && (exclusiveRename || clock - 1 !in faults ==> left == None)
      ensures name !in old(tree) ==> (w.NotInstalled? && w.unremoved.Some? <==> WriteLeaves(old(tree).Keys, old(clock)))
      ensures name !in old(tree) ==> (w.Installed? <==> WriteGoes(old(tree).Keys, old(clock)))
      ensures w.Installed? ==> WriteGoes(old(tree).Keys, old(clock)) && clock == WriteEnd(old(tree).Keys, old(clock))
    {
      var temporary := CreateTemporary();
      w, left := NotInstalled(None), None;
      if temporary.Some? {
        assert name in tree <==> name in old(tree);
        w := FillAndPublish(temporary.value, name, payload, old(strays));
        left := if temporary.value in strays then temporary else None;
      }
    }

    /** Move this run's file aside under a free token name; False when the platform cannot, or it fails. */
    method Quarantine(name: Path) returns (q: Option<Path>)
      requires Valid() && StraysAreTokens() && name in made
      modifies this`clock, this`tree, this`made, this`strays
      ensures Valid() && StraysAreTokens() && old(clock) <= clock
      ensures q == None ==> made == old(made) && strays == old(strays)
      ensures q.Some? ==> exclusiveRename && q.value !in old(tree) && made == old(made) - {name}
      ensures q.Some? ==> strays == old(strays)[q.value := old(made)[name]]
      ensures var m := NewQuarantine(old(tree).Keys, old(clock), old(clock) + 64);
              (q.Some? <==> exclusiveRename && m.Some? && m.value + 2 !in faults) && (q.Some? ==> clock == m.value + 3)
    {
      ghost var end := clock + 64;
      for i := 0 to 32
        invariant Valid() && StraysAreTokens() && old(clock) <= clock && tree == old(tree)
        invariant strays == old(strays) && made == old(made)
        invariant clock == old(clock) + 2 * i
        invariant NewQuarantine(tree.Keys, old(clock), end) == NewQuarantine(tree.Keys, clock, end)
      {
        var candidate := Token();
        var looked := Attempt();
        if !looked { return None; }
        if candidate in tree { continue; }
        var ok := Attempt();
        if !ok || !exclusiveRename { return None; }
        MoveAside(name, candidate);
        return Some(candidate);
      }
      return None;
    }

    /** An exclusive rename of a published file to a free name. */
    method MoveAside(name: Path, q: Path)
      requires Valid() && name in made && q !in tree
      modifies this`tree, this`made, this`strays
      ensures Valid() && made == old(made) - {name} && strays == old(strays)[q := old(made)[name]]
    {
      var file := tree[name];
      tree, made, strays := tree[q := file] - {name}, made - {name}, strays[q := file];
      assert tree == start + made + strays;
    }

    /** The rename back to the published name. */
    method PutBack(q: Path, name: Path)
      requires Valid() && q in strays && name !in tree
      modifies this`tree, this`made, this`strays
      ensures Valid() && made == old(made)[name := old(strays)[q]] && strays == old(strays) - {q}
    {
      var file := tree[q];
      tree, made, strays := tree[name := file] - {q}, made[name := file], strays - {q};
      assert tree == start + made + strays;
    }

    /** A published file that could not be taken back is under its own name or another of this run's. */
    ghost predicate StillThere(c: Created)
      reads this
    {
      || (c.name in made && made[c.name] == c.file)
      || exists n :: n in strays && strays[n] == c.file
    }

    lemma StillThereIsNew(c: Created)
      requires Valid() && StillThere(c)
      ensures tree != start
    {
      if !(c.name in made && made[c.name] == c.file) {
        var n :| n in strays && strays[n] == c.file;
        assert n in tree && n !in start;
      } else {
        assert c.name in tree && c.name !in start;
      }
    }

    /** The rest of _rollback_created_at, once the file stands under the quarantine name. */
    method RemoveQuarantined(q: Path, c: Created) returns (gone: bool)
      requires Valid() && StraysAreTokens() && q in strays && strays[q] == c.file && c.name !in tree
      modifies this`clock, this`tree, this`made, this`strays
      ensures Valid() && StraysAreTokens() && old(clock) <= clock
      ensures gone ==> made == old(made) && strays == old(strays) - {q}
      ensures !gone ==> made - {c.name} == old(made) && StillThere(c)
      ensures forall n :: n in old(strays) && n != q ==> n in strays && strays[n] == old(strays)[n]
      ensures Extends(strays, old(strays))
      ensures gone <==> Quiet2(old(clock)) && old(clock) + 2 !in faults
    {
      var readable := Attempt();
      if !readable {
        var restored := Attempt();
        if restored { PutBack(q, c.name); }
        return false;
      }
      var ok := Attempt();                         // the final look at the inode
      if !ok { return false; }
      gone := Unlink(q);
    }

    /** _rollback_created_at */
    method RollBackCreated(c: Created) returns (gone: bool)
      requires Valid() && StraysAreTokens() && c.name in made && made[c.name] == c.file
      modifies this`clock, this`tree, this`made, this`strays
      ensures Valid() && StraysAreTokens() && old(clock) <= clock
      ensures gone ==> exclusiveRename && made == old(made) - {c.name} && strays == old(strays)
      ensures !gone ==> StillThere(c)
      ensures made - {c.name} == old(made) - {c.name} && Extends(old(strays), strays)
      ensures forall n :: n in strays && n !in old(strays) ==> strays[n] == c.file
      ensures forall d: Created :: d.name != c.name && old(StillThere(d)) ==> StillThere(d)
      ensures gone <==> TakesBack(old(tree).Keys, old(clock))
      ensures gone ==> tree.Keys <= old(tree).Keys
    {
      var quarantine := Quarantine(c.name);
      if quarantine == None { return false; }
      gone := RemoveQuarantined(quarantine.value, c);
    }

    /** Where the rollback stands when the first i created files, the map `rest`, are still to be taken back. */
    ghost predicate RollingBack(created: seq<Created>, i: nat, leftovers: seq<Created>, rest: Tree, before: Tree)
      requires i <= |created|
      reads this
    {
      && ListedUpTo(created, i, rest) && Extends(rest, made) && Extends(before, strays)
      && (forall c :: c in leftovers ==> c in created && c.name !in rest && StillThere(c))
      && Accounted(made, rest, strays, before, leftovers)
    }

    /** One turn of the loop over reversed(created). */
    method RollBackNext(created: seq<Created>, i: nat, leftovers: seq<Created>, ghost positions: seq<nat>,
                        ghost rest: Tree, ghost before: Tree)
      returns (leftovers': seq<Created>, ghost positions': seq<nat>, ghost rest': Tree)
      requires Valid() && StraysAreTokens() && i < |created| && RollingBack(created, i + 1, leftovers, rest, before)
      requires Backwards(created, leftovers, positions, i + 1)
      modifies this`clock, this`tree, this`made, this`strays
      ensures Valid() && StraysAreTokens() && RollingBack(created, i, leftovers', rest', before)
      ensures Backwards(created, leftovers', positions', i) && |leftovers'| <= |leftovers| + 1
      ensures leftovers' == [] ==> leftovers == [] && exclusiveRename
      ensures old(Undisturbed()) && exclusiveRename ==> leftovers' == leftovers && Undisturbed()
    {
      var c := created[i];
      rest' := rest - {c.name};
      ghost var wasMade, wasStrays := made, strays;
      if Undisturbed() && exclusiveRename { UndisturbedTakesBack(); }
      var gone := RollBackCreated(c);
      OneLessBackwards(created, leftovers, positions, i);
      OneLessAccounted(wasMade, rest, wasStrays, before, leftovers, made, strays, c, gone);
      assert Extends(rest', made) by { assert forall n :: n in rest' ==> n in made - {c.name}; }
      leftovers' := if gone then leftovers else leftovers + [c];
      positions' := if gone then positions else positions + [i];
    }

    /** The loop over reversed(created): which files could not be taken back. */
    method RollBackAll(created: seq<Created>) returns (leftovers: seq<Created>, ghost positions: seq<nat>)
      requires Valid() && StraysAreTokens() && Listed(created, made)
      modifies this`clock, this`tree, this`made, this`strays
      ensures Valid() && StraysAreTokens() && Backwards(created, leftovers, positions, 0)
      ensures Accounted(made, map[], strays, old(strays), leftovers)
      ensures leftovers == [] ==> made == map[] && strays == old(strays) && (created == [] || exclusiveRename)
      ensures |leftovers| <= |created| && forall c :: c in leftovers ==> c in created && StillThere(c)
      ensures old(Undisturbed()) && exclusiveRename ==> leftovers == []
    {
      leftovers, positions := [], [];
      ghost var rest := made;
      for i := |created| downto 0
        invariant Valid() && StraysAreTokens() && RollingBack(created, i, leftovers, rest, old(strays))
        invariant Backwards(created, leftovers, positions, i) && |leftovers| <= |created| - i
        invariant leftovers == [] ==> i == |created| || exclusiveRename
        invariant old(Undisturbed()) && exclusiveRename ==> leftovers == [] && Undisturbed()
      {
        leftovers, positions, rest := RollBackNext(created, i, leftovers, positions, rest, old(strays));
      }
    }

    /** _verify_created_at: the name holds this run's inode with the intended bytes. */
    method VerifyCreated(c: Created) returns (ok: bool)
      modifies this`clock
      ensures ok == (old(clock) !in faults && c.name in tree && tree[c.name] == c.file) && clock == old(clock) + 1
    {
      ok := Attempt();
      ok := ok && c.name in tree && tree[c.name] == c.file;
    }

    /** Open the parent directory and look at the destination. */
    method Look(p: Planned) returns (d: Destination)
      modifies this`clock
      ensures old(clock) <= clock && (d != Unusable ==> clock == old(clock) + 2)
      ensures d == Copy <==> Quiet2(old(clock)) && p.destination !in tree
      ensures d == Identical <==> Quiet2(old(clock)) && Holds(tree, p)
    {
      var held := Attempt();
      if !held { return Unusable; }
      d := DestinationState(p.destination, p.payload);
    }

    /** The parent is still the same directory, and the file is what this run wrote. */
    method Confirm(c: Created) returns (ok: bool)
      requires c.name in tree && tree[c.name] == c.file
      modifies this`clock
      ensures ok == Quiet2(old(clock)) && old(clock) <= clock && (ok ==> clock == old(clock) + 2)
    {
      ok := Attempt();
      if ok { ok := VerifyCreated(c); }
    }

    /** Write and confirm a file the card lacks. */
    method CopyOne(p: Planned) returns (step: Step, published: Option<Created>, ghost left: Option<Path>)
      requires Valid() && StraysAreTokens() && Foreign(p.destination) && p.destination !in tree
      modifies this`clock, this`tree, this`made, this`strays, this`nextInode
      ensures Valid() && StraysAreTokens() && old(clock) <= clock && step != AlreadyThere
      ensures LeftBehind(left, old(tree), old(strays))
      ensures published == None ==> made == old(made) && step == Broken(left)
      ensures published.Some? ==>
        && IsCopyOf(published.value, p) && made == old(made)[p.destination := published.value.file]
        && step in {Copied, Broken(None)}
      ensures published.Some? && exclusiveRename ==> left == None
      ensures step == Copied ==>
        published.Some? && old(clock) + 2 < clock && (exclusiveRename || clock - 3 !in faults ==> left == None)
      ensures step.Broken? && step.unremoved.Some? <==> WriteLeaves(old(tree).Keys, old(clock))
      ensures step == Copied <==> WriteGoes(old(tree).Keys, old(clock)) && Quiet2(WriteEnd(old(tree).Keys, old(clock)))
      ensures step == Copied ==> clock == WriteEnd(old(tree).Keys, old(clock)) + 2
    {
      var w;
      w, left := AtomicWriteNew(p.destination, p.payload);
      if w.NotInstalled? { return Broken(w.unremoved), None, left; }
      var c := Created(p.destination, w.file);
      var ok := Confirm(c);
      return if ok then Copied else Broken(None), Some(c), left;
    }

    /** One planned file.  A file that was published is in `published` even if looking at it then fails. */
    method ApplyOne(p: Planned) returns (step: Step, published: Option<Created>, ghost left: Option<Path>)
      requires Valid() && StraysAreTokens() && Foreign(p.destination)
      modifies this`clock, this`tree, this`made, this`strays, this`nextInode
      ensures Valid() && StraysAreTokens() && old(clock) <= clock && LeftBehind(left, old(tree), old(strays))
      ensures published == None ==> made == old(made) && (step == AlreadyThere || step == Broken(left))
      ensures published.Some? ==> p.destination !in old(tree) && IsCopyOf(published.value, p)
      ensures published.Some? ==>
        made == old(made)[p.destination := published.value.file] && step in {Copied, Broken(None)}
      ensures published.Some? && exclusiveRename ==> left == None
      ensures step == Copied ==> published.Some?
      ensures step == AlreadyThere ==> published == None && left == None && Holds(old(tree), p)
      ensures Tells(Contents(old(tree)), old(clock), p, step, clock)
      ensures old(Undisturbed()) ==>
        left == None && (step.Broken? <==> p.destination in old(tree) && !Holds(old(tree), p))
    {
      if Undisturbed() && p.destination !in tree { UndisturbedCopies(p); }
      var state := Look(p);
      step, published, left := if state == Identical then AlreadyThere else Broken(None), None, None;
      if state == Copy { step, published, left := CopyOne(p); }
    }

    /** What has been copied can be taken back, and the run goes on to leave a temporary file. */
    ghost predicate Doomed(plan: seq<Planned>, i: nat, created: seq<Created>)
      reads this
    {
      (exclusiveRename || created == []) && LeavesTemporary(Contents(tree), clock, plan, i)
    }

    /** Where the copying loop stands after `i` files without a failure. */
    ghost predicate Progress(plan: seq<Planned>, i: nat, created: seq<Created>, copied: seq<Path>, identical: seq<Path>)
      requires i <= |plan|
      reads this
    {
      && Listed(created, made)
      && FromPlan(created, plan) && |created| <= i
      && HoldsAll(tree, plan[..i]) && Dealt(start.Keys, plan[..i], copied, identical)
      && (forall n :: n in made <==> n in copied)
      && (exclusiveRename || created == [] ==> strays == map[])
    }

    /** The i-th planned file, and what it means for the rest of the run. */
    method ApplyAt(plan: seq<Planned>, i: nat) returns (step: Step, published: Option<Created>)
      requires Valid() && StraysAreTokens() && i < |plan| && Foreign(plan[i].destination)
      modifies this`clock, this`tree, this`made, this`strays, this`nextInode
      ensures Valid() && StraysAreTokens() && old(clock) <= clock && Extends(old(tree), tree)
      ensures published == None ==> made == old(made) && step != Copied
      ensures published.Some? ==> plan[i].destination !in old(tree) && IsCopyOf(published.value, plan[i])
      ensures published.Some? ==>
        made == old(made)[plan[i].destination := published.value.file] && step in {Copied, Broken(None)}
      ensures step == AlreadyThere ==> published == None && strays == old(strays) && Holds(old(tree), plan[i])
      ensures old(strays) == map[] && (exclusiveRename || published == None) ==>
        strays.Keys == if step.Broken? && step.unremoved.Some? then {step.unremoved.value} else {}
      ensures old(LeavesTemporary(Contents(tree), clock, plan, i)) <==>
        if step.Broken? then step.unremoved.Some?
        else (step == AlreadyThere || exclusiveRename) && LeavesTemporary(Contents(tree), clock, plan, i + 1)
      ensures old(Undisturbed()) ==> Undisturbed() && strays == old(strays)
      ensures old(Undisturbed()) && step.Broken? ==> plan[i].destination in old(tree) && !Holds(old(tree), plan[i])
    {
      var p := plan[i];
      ghost var before, madeBefore, straysBefore, calm, c := tree, made, strays, Undisturbed(), clock;
      ghost var left;
      step, published, left := ApplyOne(p);
      LeftBehindExtends(left, before, straysBefore);
      SumExtends(start, madeBefore, straysBefore, made, strays);
      TellsTheRest(Contents(before), c, plan, i, step, clock);
      if published.Some? {
        ContentsWith(before, p.destination, published.value.file);
        if left == None { SumWith(start, madeBefore, strays, p.destination, published.value.file); }
      }
      if calm { UndisturbedStill(c, before, p.destination); }
    }

    /** One turn of the copying loop of apply_migration. */
    method CopyNext(plan: seq<Planned>, i: nat, created: seq<Created>, copied: seq<Path>, identical: seq<Path>)
      returns (step: Step, created': seq<Created>, copied': seq<Path>, identical': seq<Path>)
      requires Valid() && StraysAreTokens() && i < |plan| && Foreign(plan[i].destination)
      requires Progress(plan, i, created, copied, identical)
      modifies this`clock, this`tree, this`made, this`strays, this`nextInode
      ensures Valid() && StraysAreTokens() && old(clock) <= clock
      ensures Listed(created', made) && FromPlan(created', plan)
      ensures exclusiveRename || created' == [] ==>
        strays.Keys == if step.Broken? && step.unremoved.Some? then {step.unremoved.value} else {}
      ensures !step.Broken? ==> Progress(plan, i + 1, created', copied', identical')
      ensures old(Undisturbed() && strays == map[]) ==>
        Undisturbed() && strays == map[] && (step.Broken? ==> !Agreeable(start, plan))
      ensures step.Broken? && step.unremoved.Some? ==> created' == created
      ensures old(Undisturbed() && strays == map[]) && step.Broken? ==> (created' == [] <==> RefusesFirst(start, plan))
      ensures old(Doomed(plan, i, created)) <==>
        if step.Broken? then step.unremoved.Some? && (exclusiveRename || created == [])
        else Doomed(plan, i + 1, created')
    {
      var p := plan[i];
      var published;
      ghost var before, madeBefore := tree, made;
      if p.destination in tree && !Holds(tree, p) {
        NotAgreeable(start, tree, plan, i);
        if strays == map[] { RefusalIsFirst(start, tree, made, plan, i); }
      }
      step, published := ApplyAt(plan, i);
      created', copied', identical' := created, copied, identical;
      if published.Some? {
        OneMorePublished(created, madeBefore, published.value);
        OneMoreFromPlan(created, plan, i, published.value);
        created' := created + [published.value];
      }
      if step.Broken? { return; }
      OneMoreHeld(before, tree, plan, i);
      OneMoreDealt(start.Keys, plan, i, copied, identical);
      if step == Copied { copied' := copied + [p.destination]; } else { identical' := identical + [p.destination]; }
    }

    /** The copying loop of apply_migration; it stops at the first file that fails. */
    method CopyAll(plan: seq<Planned>)
      returns (last: Step, created: seq<Created>, copied: seq<Path>, identical: seq<Path>)
      requires Valid() && made == strays == map[]
      requires forall i :: 0 <= i < |plan| ==> Foreign(plan[i].destination)
      modifies this`clock, this`tree, this`made, this`strays, this`nextInode
      ensures Valid() && StraysAreTokens() && Listed(created, made) && FromPlan(created, plan)
      ensures exclusiveRename || created == [] ==>
        strays.Keys == if last.Broken? && last.unremoved.Some? then {last.unremoved.value} else {}
      ensures !last.Broken? ==> HoldsAll(tree, plan) && Dealt(start.Keys, plan, copied, identical)
      ensures !last.Broken? ==> forall n :: n in made <==> n in copied
      ensures old(Undisturbed()) ==> Undisturbed() && strays == map[] && (last.Broken? ==> !Agreeable(start, plan))
      ensures old(Undisturbed()) && last.Broken? ==> (created == [] <==> RefusesFirst(start, plan))
      ensures old(Doomed(plan, 0, [])) <==> last.Broken? && last.unremoved.Some? && (exclusiveRename || created == [])
      ensures last.Broken? && last.unremoved.Some? ==> |created| < |plan|
    {
      assert plan[..|plan|] == plan;
      NothingDealt(start.Keys, plan);
      last, created, copied, identical := AlreadyThere, [], [], [];
      for i := 0 to |plan|
        invariant !last.Broken? && Valid() && StraysAreTokens() && Progress(plan, i, created, copied, identical)
        invariant old(Undisturbed()) ==> Undisturbed() && strays == map[]
        invariant old(Doomed(plan, 0, [])) <==> Doomed(plan, i, created)
      {
        last, created, copied, identical := CopyNext(plan, i, created, copied, identical);
        if last.Broken? { return; }
      }
    }

    /** Whether a migration starting now is doomed to leave a temporary file that no rollback removes. */
    ghost predicate LeavesBehind(plan: seq<Planned>)
      reads this
    {
      clock !in faults && LeavesTemporary(Contents(tree), clock + 1, plan, 0)
    }

    /** apply_migration; a fault at the first step stands for any change since the plan was made. */
    method ApplyMigration(plan: seq<Planned>) returns (outcome: Outcome)
      requires Valid() && made == strays == map[]
      requires forall i :: 0 <= i < |plan| ==> Foreign(plan[i].destination)
      modifies this`clock, this`tree, this`made, this`strays, this`nextInode
      ensures Valid() && Extends(start, tree)
      ensures outcome.Applied? ==> HoldsAll(tree, plan) && outcome.copied == NewNames(start.Keys, plan)
      ensures outcome.Applied? ==> outcome.identical == OldNames(start.Keys, plan)
      ensures outcome.Applied? ==> |outcome.copied| + |outcome.identical| == |plan|
      ensures outcome.Applied? && exclusiveRename ==> forall n :: n in tree <==> n in start || n in outcome.copied
      ensures outcome.Applied? && outcome.copied == [] ==> tree == start
      ensures outcome.Failed? ==>
        tree.Keys == start.Keys + if outcome.unremoved.Some? then {outcome.unremoved.value} else {}
      ensures outcome.Failed? && outcome.unremoved.Some? ==>
        outcome.unremoved.value !in start && !Foreign(outcome.unremoved.value)
      ensures outcome.FailedWithLeftovers? ==> outcome.leftovers != []
      ensures outcome.FailedWithLeftovers? ==> forall c :: c in outcome.leftovers ==>
        StillThere(c) && Planned(c.name, c.file.bytes) in plan
      // A file left under a name that is neither of the card nor a temporary one is reported.
      ensures outcome.FailedWithLeftovers? ==>
        forall n :: n in tree && n !in start && Foreign(n) ==> n in Names(outcome.leftovers)
      // Without leftovers the prior files are restored exactly when no write was going to fail twice.
      ensures outcome.Failed? ==> (outcome.unremoved.Some? <==> old(LeavesBehind(plan)))
      ensures outcome.Failed? ==> (tree == start <==> !old(LeavesBehind(plan)))
      ensures old(LeavesBehind(plan)) ==>
        outcome.Failed? || (outcome.FailedWithLeftovers? && |outcome.leftovers| < |plan|)
      ensures old(Undisturbed()) ==> (outcome.Applied? <==> Agreeable(start, plan))
      ensures old(Undisturbed()) && exclusiveRename && !outcome.Applied? ==> tree == start
      // Without an exclusive rename nothing published is taken back.
      ensures old(Undisturbed()) && !exclusiveRename && !outcome.Applied? ==>
        (outcome.Failed? <==> RefusesFirst(start, plan))
      ensures outcome.FailedWithLeftovers? ==> tree != start
    {
      var current := Attempt();
      if !current { return Failed(None); }
      var last, created, copied, identical := CopyAll(plan);
      if !last.Broken? {
        AppliedIsAgreeable(start, tree, plan);
        assert copied == [] ==> made == map[];
        return Applied(copied, identical);
      }
      var leftovers, _ := RollBackAll(created);
      if leftovers != [] { StillThereIsNew(leftovers[0]); }
      outcome := if leftovers == [] then Failed(last.unremoved) else FailedWithLeftovers(leftovers);
    }

    /** Where no two operations in a row fail, a failure without leftovers restores exactly the prior files. */
    lemma IsolatedRestores(plan: seq<Planned>)
      requires forall n: nat :: Isolated(n)
      ensures !LeavesBehind(plan)
    {
      IsolatedLeavesNothing(Contents(tree), clock + 1, plan, 0);
    }
  }

  lemma AppliedIsAgreeable(start: Tree, tree: Tree, plan: seq<Planned>)
    requires Extends(start, tree) && HoldsAll(tree, plan)
    ensures Agreeable(start, plan)
  {
    forall i | 0 <= i < |plan| && plan[i].destination in start
      ensures start[plan[i].destination].bytes == plan[i].payload
    {
      assert Holds(tree, plan[i]);
    }
    forall i, j | 0 <= i < j < |plan| && plan[i].destination == plan[j].destination
      ensures plan[i].payload == plan[j].payload
    {
      assert Holds(tree, plan[i]) && Holds(tree, plan[j]);
    }
  }

  lemma {:induction false} AllKnown(tree: Tree, plan: seq<Planned>)
    requires HoldsAll(tree, plan)
    ensures NewNames(tree.Keys, plan) == []
  {
    if plan != [] {
      assert Holds(tree, plan[|plan| - 1]);
      AllKnown(tree, plan[..|plan| - 1]);
    }
  }

  /** A plan has nothing to copy and nothing in its way exactly on a card that already holds it all. */
  lemma {:induction false} NothingToCopy(tree: Tree, plan: seq<Planned>)
    ensures HoldsAll(tree, plan) <==> Agreeable(tree, plan) && NewNames(tree.Keys, plan) == []
  {
    NewNamesExact(tree.Keys, plan);
    if HoldsAll(tree, plan) {
      AppliedIsAgreeable(tree, tree, plan);
      AllKnown(tree, plan);
    } else if NewNames(tree.Keys, plan) == [] {
      var i :| 0 <= i < |plan| && !Holds(tree, plan[i]);
      assert Planning(plan, plan[i].destination);
    }
  }

  /** Running the same plan again on the card a successful run left copies nothing and changes nothing. */
  method ApplyAgain(first: Card, plan: seq<Planned>, faults: iset<nat>, tokens: nat -> Path)
    returns (again: Card, outcome: Outcome)
    requires HoldsAll(first.tree, plan)
    requires forall i, n: nat :: 0 <= i < |plan| ==> tokens(n) != plan[i].destination
    ensures again.Valid() && again.start == first.tree
    ensures outcome.Applied? ==> outcome.copied == [] && again.tree == first.tree
    ensures (forall n: nat :: n !in faults && tokens(n) !in first.tree) ==>
      (forall m: nat, n: nat :: m < n ==> tokens(m) != tokens(n)) ==>
        outcome.Applied?
  {
    again := new Card(first.tree, first.exclusiveRename, first.nextInode, faults, tokens);
    NothingToCopy(first.tree, plan);
    outcome := again.ApplyMigration(plan);
  }

  /**
    The prior set of files is not always restored: when writing the first file and then removing its
    temporary file both fail, the temporary file stays, and the rollback, having nothing listed, says
    nothing of it.
  */
  method TemporaryCanSurvive(p: Planned, temporary: Path) returns (card: Card, outcome: Outcome)
    requires p.destination != temporary
    ensures fresh(card) && card.start == map[] && card.faults == iset{5, 6}
    ensures outcome == Failed(Some(temporary)) && card.tree.Keys == {temporary}
  {
    card := new Card(map[], true, 0, iset{5, 6}, n => temporary);
    assert card.FirstNew({}, 3, 35) == Some(3);
    assert card.LeavesTemporary(map[], 1, [p], 0);
    outcome := card.ApplyMigration([p]);
  }

  lemma SecondIsRefused(start: Tree, a: Planned, b: Planned)
    requires a.destination !in start && b.destination in start && !Holds(start, b)
    ensures !Agreeable(start, [a, b]) && !RefusesFirst(start, [a, b])
  {
    var plan := [a, b];
    assert plan[1] == b;
    forall k | 0 <= k < 2 && HoldsAll(start, plan[..k]) ensures k == 0 {
      assert k > 0 ==> Holds(start, plan[..k][0]);
    }
  }

  /**
    A run in which no operation fails and the card is still not restored: without an exclusive
    rename, the copy of the first file stays when the second is refused.
  */
  method CopyCannotBeTakenBack(payload: Bytes, held: Bytes, other: Bytes) returns (card: Card, outcome: Outcome)
    requires held != other
    ensures fresh(card) && card.start == map["b" := File(0, held)] && card.faults == iset{}
    ensures outcome.FailedWithLeftovers? && card.tree != card.start
  {
    var start, a, b := map["b" := File(0, held)], Planned("a", payload), Planned("b", other);
    card := new Card(start, false, 1, iset{}, (n: nat) => seq(n + 2, i => 'x'));
    SecondIsRefused(start, a, b);
    outcome := card.ApplyMigration([a, b]);
  }
}
