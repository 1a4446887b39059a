/** Walking through a user's constituents page by page while others add, edit and remove rows. */
module Pagination {
  import opened Wrappers
  import opened Constituents
  import opened Sequences

  /**
   * The client keeps what it was shown and asks next for what comes after the last of it. A request is two statements:
   * `after` is the id that the first one found, until the second one uses it.
   */
  datatype Walk = Walk(table: Table, cursor: Option<PublicId>, after: Option<int>, listed: seq<int>, done: bool)

  datatype Step =
    | LookUp
    | Query
    | Add(id: int, row: Row)
    | EditRow(user: UserId, publicId: PublicId, edit: Edit)
    | Remove(user: UserId, publicId: PublicId)
    | RemoveAll(user: UserId)

  /** The client still needs the row that its cursor names. */
  predicate Standing(w: Walk) {
    w.after.None? && !w.done
  }

  /** Writers come in at any time and may do anything but remove the row that the client is standing on. */
  predicate Enabled(w: Walk, user: UserId, e: Step) {
    match e
    case LookUp => Standing(w)
    case Query => w.after.Some?
    case Add(id, row) => id !in w.table && ValidTable(w.table[id := row])
    case EditRow(_, _, _) => true
    case Remove(u, publicId) => !(Standing(w) && u == user && w.cursor == Some(publicId))
    case RemoveAll(u) => !(Standing(w) && u == user && w.cursor.Some?)
  }

  /** The id that `list` compares with. */
  ghost function CursorId(w: Walk, user: UserId): Option<int> {
    if w.cursor.None? then Some(INT_MAX)
    else if Exists(w.table, user, w.cursor.value) then
      var id :| Matches(w.table, id, user, w.cursor.value);
      Some(id)
    else None
  }

  /** An empty page ends the walk. */
  function AfterPage(w: Walk, user: UserId, after: int): Walk {
    var page := Page(w.table, user, after);
    PageExactly(w.table, user, after);
    if page == [] then w.(after := None, done := true)
    else
      assert page[|page| - 1] in page;
      var last := w.table[page[|page| - 1]];
      w.(after := None, listed := w.listed + page, cursor := Some(last.publicId))
  }

  ghost function Apply(w: Walk, user: UserId, e: Step): Walk
    requires Enabled(w, user, e)
  {
    match e
    case LookUp => w.(after := CursorId(w, user))
    case Query => AfterPage(w, user, w.after.value)
    case Add(id, row) => w.(table := w.table[id := row])
    case EditRow(u, publicId, edit) => w.(table := Edited(w.table, u, publicId, edit))
    case Remove(u, publicId) => w.(table := Removed(w.table, u, publicId))
    case RemoveAll(u) => w.(table := WithoutUser(w.table, u))
  }

  function Start(t: Table): Walk {
    Walk(t, None, None, [], false)
  }

  ghost predicate IsRun(w: Walk, user: UserId, steps: seq<Step>)
    decreases |steps|
  {
    steps == [] || (Enabled(w, user, steps[0]) && IsRun(Apply(w, user, steps[0]), user, steps[1..]))
  }

  ghost function RunFrom(w: Walk, user: UserId, steps: seq<Step>): Walk
    requires IsRun(w, user, steps)
    decreases |steps|
  {
    if steps == [] then w else RunFrom(Apply(w, user, steps[0]), user, steps[1..])
  }

  // ---------- the walk's invariant ----------

  /** The lowest id shown so far; nothing at or above it is shown again. */
  function Reached(w: Walk): int {
    if w.listed == [] then INT_MAX else w.listed[|w.listed| - 1]
  }

  /** What was shown is in strictly descending order, and the next request goes on from the last row shown. */
  predicate Sound(w: Walk, user: UserId) {
    && ValidTable(w.table)
    && Descending(w.listed)
    && (forall i | 0 <= i < |w.listed| :: 1 <= w.listed[i] < INT_MAX)
    && (w.cursor.None? <==> w.listed == [])
    && (Standing(w) && w.cursor.Some? ==> Matches(w.table, Reached(w), user, w.cursor.value))
    && (w.after.Some? ==> w.after.value == Reached(w) && !w.done)
  }

  lemma CursorIsReached(w: Walk, user: UserId)
    requires Sound(w, user) && Standing(w)
    ensures CursorId(w, user) == Some(Reached(w))
  {
  }

  lemma StepKeepsTable(w: Walk, user: UserId, e: Step)
    requires Enabled(w, user, e) && ValidTable(w.table)
    ensures ValidTable(Apply(w, user, e).table)
  {
  }

  lemma StepSound(w: Walk, user: UserId, e: Step)
    requires Enabled(w, user, e) && Sound(w, user)
    ensures Sound(Apply(w, user, e), user)
  {
    hide AfterPage, CursorId, Descending;
    StepKeepsTable(w, user, e);
    if e.LookUp? {
      CursorIsReached(w, user);
    } else if e.Query? {
      QuerySound(w, user);
    }
  }

  lemma QuerySound(w: Walk, user: UserId)
    requires Sound(w, user) && w.after.Some?
    ensures Sound(Apply(w, user, Query), user)
  {
    hide Page, Descending;
    var page := Page(w.table, user, Reached(w));
    PageByIndex(w.table, user, Reached(w));
    ReachedIsLowest(w);
    DescendingOn(w.listed, page, Reached(w));
  }

  lemma ReachedIsLowest(w: Walk)
    requires Descending(w.listed)
    ensures forall i | 0 <= i < |w.listed| :: w.listed[i] >= Reached(w)
  {
  }

  lemma PageByIndex(t: Table, user: UserId, after: int)
    ensures Descending(Page(t, user, after))
    ensures forall i | 0 <= i < |Page(t, user, after)| ::
              1 <= Page(t, user, after)[i] < after && Belongs(t, Page(t, user, after)[i], user)
  {
    hide Page;
    PageExactly(t, user, after);
    var page := Page(t, user, after);
    forall i | 0 <= i < |page| ensures 1 <= page[i] < after && Belongs(t, page[i], user) {
      assert page[i] in page;
    }
  }

  lemma DescendingOn(a: seq<int>, b: seq<int>, bound: int)
    requires Descending(a) && Descending(b)
    requires forall i | 0 <= i < |a| :: a[i] >= bound
    requires forall i | 0 <= i < |b| :: b[i] < bound
    ensures Descending(a + b)
  {
  }

  lemma {:induction false} RunSound(w: Walk, user: UserId, steps: seq<Step>)
    requires IsRun(w, user, steps) && Sound(w, user)
    ensures Sound(RunFrom(w, user, steps), user)
    decreases |steps|
  {
    hide Apply, Sound;
    if steps != [] {
      StepSound(w, user, steps[0]);
      RunSound(Apply(w, user, steps[0]), user, steps[1..]);
    }
  }

  // ---------- nothing is missed ----------

  predicate IsRowOf(w: Walk, user: UserId, id: int) {
    id in w.table && w.table[id].user == user
  }

  /** A row that is there and belongs to the user has been shown unless the walk has not come down to it yet. */
  predicate NotMissed(w: Walk, user: UserId, id: int) {
    IsRowOf(w, user, id) && id < INT_MAX ==> (id in w.listed || (id < Reached(w) && !w.done))
  }

  lemma StepMissesNothing(w: Walk, user: UserId, e: Step, id: int)
    requires Enabled(w, user, e) && Sound(w, user)
    requires IsRowOf(w, user, id) && NotMissed(w, user, id)
    ensures NotMissed(Apply(w, user, e), user, id)
  {
    hide Page, CursorId;
    if e.Query? {
      PageExactly(w.table, user, Reached(w));
    }
  }

  /** The id is a row of the user in every table of the run. */
  ghost predicate Throughout(w: Walk, user: UserId, steps: seq<Step>, id: int)
    requires IsRun(w, user, steps)
    decreases |steps|
  {
    && IsRowOf(w, user, id)
    && (steps == [] || Throughout(Apply(w, user, steps[0]), user, steps[1..], id))
  }

  lemma {:induction false} RunMissesNothing(w: Walk, user: UserId, steps: seq<Step>, id: int)
    requires IsRun(w, user, steps) && Sound(w, user)
    requires Throughout(w, user, steps, id) && NotMissed(w, user, id)
    ensures NotMissed(RunFrom(w, user, steps), user, id)
    ensures IsRowOf(RunFrom(w, user, steps), user, id)
    decreases |steps|
  {
    hide Apply, CursorId, Sound;
    if steps != [] {
      StepSound(w, user, steps[0]);
      StepMissesNothing(w, user, steps[0], id);
      RunMissesNothing(Apply(w, user, steps[0]), user, steps[1..], id);
    }
  }

  // ---------- nothing else is shown ----------

  /** In some table of the run the id is a row of the user. */
  ghost predicate Sometime(w: Walk, user: UserId, steps: seq<Step>, id: int)
    requires IsRun(w, user, steps)
    decreases |steps|
  {
    IsRowOf(w, user, id) || (steps != [] && Sometime(Apply(w, user, steps[0]), user, steps[1..], id))
  }

  lemma StepShowsRows(w: Walk, user: UserId, e: Step, id: int)
    requires Enabled(w, user, e) && id in Apply(w, user, e).listed && id !in w.listed
    ensures IsRowOf(w, user, id)
  {
    hide Page, CursorId;
    if e.Query? {
      PageExactly(w.table, user, w.after.value);
    }
  }

  lemma {:induction false} RunShowsRows(w: Walk, user: UserId, steps: seq<Step>, id: int)
    requires IsRun(w, user, steps) && id in RunFrom(w, user, steps).listed && id !in w.listed
    ensures Sometime(w, user, steps, id)
    decreases |steps|
  {
    hide Apply, IsRowOf;
    if steps != [] {
      if id in Apply(w, user, steps[0]).listed {
        StepShowsRows(w, user, steps[0], id);
      } else {
        RunShowsRows(Apply(w, user, steps[0]), user, steps[1..], id);
      }
    }
  }

  predicate AddedAgain(steps: seq<Step>, id: int) {
    exists k | 0 <= k < |steps| :: steps[k].Add? && steps[k].id == id
  }

  lemma {:induction false} GoneStaysUnshown(w: Walk, user: UserId, steps: seq<Step>, id: int)
    requires IsRun(w, user, steps) && id !in w.table && id !in w.listed && !AddedAgain(steps, id)
    ensures id !in RunFrom(w, user, steps).listed
    decreases |steps|
  {
    hide Page, CursorId;
    if steps != [] {
      var next := Apply(w, user, steps[0]);
      assert id !in next.listed by {
        if id in next.listed {
          StepShowsRows(w, user, steps[0], id);
        }
      }
      assert id !in next.table by {
        if steps[0].Add? {
          assert steps[0].id != id;
        }
      }
      assert forall k | 0 <= k < |steps[1..]| :: steps[1..][k] == steps[k + 1];
      GoneStaysUnshown(next, user, steps[1..], id);
    }
  }

  // ---------- main results ----------

  /** A walk shows nothing but rows that the user had at some point of it. */
  lemma WalkShowsOnlyRows(t: Table, user: UserId, steps: seq<Step>, id: int)
    requires IsRun(Start(t), user, steps) && id in RunFrom(Start(t), user, steps).listed
    ensures Sometime(Start(t), user, steps, id)
  {
    RunShowsRows(Start(t), user, steps, id);
  }

  /** A row that is removed before the walk comes down to it is never shown, unless its id is added again. */
  lemma RemovedIsNotShown(w: Walk, user: UserId, e: Step, steps: seq<Step>, id: int)
    requires IsRun(w, user, [e] + steps) && IsRowOf(w, user, id) && id !in w.listed && !AddedAgain(steps, id)
    requires e == Remove(user, w.table[id].publicId) || e == RemoveAll(user)
    ensures id !in RunFrom(w, user, [e] + steps).listed
  {
    assert ([e] + steps)[1..] == steps;
    GoneStaysUnshown(Apply(w, user, e), user, steps, id);
  }

  /** However a walk is interleaved, it shows strictly descending ids, none twice, and no cursor of it is refused. */
  lemma WalkDescends(t: Table, user: UserId, steps: seq<Step>)
    requires ValidTable(t) && IsRun(Start(t), user, steps)
    ensures var w := RunFrom(Start(t), user, steps);
            Descending(w.listed) && (Standing(w) ==> CursorId(w, user) == Some(Reached(w)))
  {
    hide CursorId;
    var w := RunFrom(Start(t), user, steps);
    RunSound(Start(t), user, steps);
    if Standing(w) {
      CursorIsReached(w, user);
    }
  }

  /** A finished walk has shown every row of the user that was there throughout, unless its id is the largest int. */
  lemma WalkIsComplete(t: Table, user: UserId, steps: seq<Step>, id: int)
    requires ValidTable(t) && IsRun(Start(t), user, steps)
    requires Throughout(Start(t), user, steps, id) && id < 0x7fff_ffff
    requires RunFrom(Start(t), user, steps).done
    ensures id in RunFrom(Start(t), user, steps).listed
  {
    RunMissesNothing(Start(t), user, steps, id);
  }

  /** The largest int is the one id that is never shown: the walk starts strictly below it. */
  lemma LargestIdIsNeverShown(t: Table, user: UserId, steps: seq<Step>)
    requires ValidTable(t) && IsRun(Start(t), user, steps)
    ensures 0x7fff_ffff !in RunFrom(Start(t), user, steps).listed
  {
    hide IsRun, RunFrom;
    RunSound(Start(t), user, steps);
  }

  function Requests(steps: seq<Step>): nat {
    if steps == [] then 0 else (if steps[0].LookUp? then 1 else 0) + Requests(steps[1..])
  }

  /** How many requests are still possible: each must show an id below what was reached, or is the last. */
  function RequestsLeft(w: Walk): int {
    if w.done then 0 else if w.after.Some? then Reached(w) - 1 else Reached(w)
  }

  /** Each statement of a request uses it up, and writers do not give any back. */
  lemma StepUsesRequest(w: Walk, user: UserId, e: Step)
    requires Enabled(w, user, e) && Sound(w, user)
    ensures RequestsLeft(Apply(w, user, e)) <= RequestsLeft(w) - if e.LookUp? then 1 else 0
  {
    hide Page, CursorId;
    if e.LookUp? {
      CursorIsReached(w, user);
    } else if e.Query? {
      PageByIndex(w.table, user, Reached(w));
    }
  }

  lemma {:induction false} RunUsesRequests(w: Walk, user: UserId, steps: seq<Step>)
    requires IsRun(w, user, steps) && Sound(w, user)
    ensures Requests(steps) <= RequestsLeft(w)
    decreases |steps|
  {
    hide Apply, Sound, RequestsLeft;
    if steps == [] {
      RequestsLeftIsNat(w, user);
    } else {
      StepSound(w, user, steps[0]);
      StepUsesRequest(w, user, steps[0]);
      RunUsesRequests(Apply(w, user, steps[0]), user, steps[1..]);
    }
  }

  lemma RequestsLeftIsNat(w: Walk, user: UserId)
    requires Sound(w, user)
    ensures RequestsLeft(w) >= 0
  {
  }

  /** A walk ends: no run has more requests than there are ids, whatever the writers do. */
  lemma WalkEnds(t: Table, user: UserId, steps: seq<Step>)
    requires ValidTable(t) && IsRun(Start(t), user, steps)
    ensures Requests(steps) <= 0x7fff_ffff
  {
    RunUsesRequests(Start(t), user, steps);
  }

  predicate OnlyRequests(steps: seq<Step>) {
    forall i | 0 <= i < |steps| :: steps[i].LookUp? || steps[i].Query?
  }

  /** What was shown and what is still below make up the whole list. */
  predicate Covers(w: Walk, user: UserId, all: seq<int>) {
    && w.listed + IdsBelow(w.table, user, Reached(w)) == all
    && (w.done ==> w.listed == all)
  }

  lemma {:induction false} QuietWalk(w: Walk, user: UserId, steps: seq<Step>, all: seq<int>)
    requires IsRun(w, user, steps) && Sound(w, user) && OnlyRequests(steps)
    requires Covers(w, user, all)
    ensures RunFrom(w, user, steps).table == w.table && Covers(RunFrom(w, user, steps), user, all)
    decreases |steps|
  {
    hide Apply, Covers, Sound;
    if steps != [] {
      StepSound(w, user, steps[0]);
      QuietStep(w, user, steps[0], all);
      QuietWalk(Apply(w, user, steps[0]), user, steps[1..], all);
    }
  }

  lemma QuietStep(w: Walk, user: UserId, e: Step, all: seq<int>)
    requires Enabled(w, user, e) && (e.LookUp? || e.Query?) && Sound(w, user)
    requires Covers(w, user, all)
    ensures Apply(w, user, e).table == w.table && Covers(Apply(w, user, e), user, all)
  {
    hide IdsBelow, CursorId;
    if e.Query? {
      var below := IdsBelow(w.table, user, Reached(w));
      var page := Page(w.table, user, Reached(w));
      if page != [] {
        IdsBelowSplit(w.table, user, Reached(w), |page| - 1);
        assert below == page + below[|page|..];
        Regroup(w.listed, page, below[|page|..]);
      } else {
        assert w.listed + below == w.listed;
      }
    }
  }

  /** With no writers, the pages of a finished walk are together the user's whole list in descending order. */
  lemma QuietWalkIsTheList(t: Table, user: UserId, steps: seq<Step>)
    requires ValidTable(t) && IsRun(Start(t), user, steps) && OnlyRequests(steps)
    requires RunFrom(Start(t), user, steps).done
    ensures RunFrom(Start(t), user, steps).listed == IdsBelow(t, user, INT_MAX)
  {
    hide IdsBelow, Apply, IsRun, RunFrom;
    assert [] + IdsBelow(t, user, INT_MAX) == IdsBelow(t, user, INT_MAX);
    QuietWalk(Start(t), user, steps, IdsBelow(t, user, INT_MAX));
  }
}
