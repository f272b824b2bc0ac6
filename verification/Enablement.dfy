/** Which plugins run for a resource, and in what order: the merge of the
    configuration rows that apply to it. */
module Enablement {
  import opened Options

  const I32_MIN: int := -0x8000_0000

  /** A configuration row: stored namespace, scope, whether it sets `enabled`, position. */
  datatype Row = Row(namespace: string, scope: string, enabled: Option<bool>, position: int)

  type ResourceEnablements = map<string, int>

  function ScopePriority(scope: string): nat {
    match scope
    case "contest_problem" => 3
    case "contest" => 2
    case "problem" => 1
    case _ => 0
  }

  predicate Overrides(scope: string, other: string) {
    || (scope == "contest_problem" && other in {"contest", "problem"})
    || (scope == "contest" && other == "problem")
  }

  /** The part before the first colon, or all of it. */
  function ExtractPluginId(composite: string): (id: string)
    ensures ':' !in id && id <= composite
    ensures |id| < |composite| ==> composite[|id|] == ':'
  {
    if composite == [] || composite[0] == ':' then []
    else [composite[0]] + ExtractPluginId(composite[1..])
  }

  predicate Concerns(row: Row, pid: string) { ExtractPluginId(row.namespace) == pid }

  function Priority(row: Row): nat { ScopePriority(row.scope) }

  // -------------------------------------------------------------- what is meant

  /** Some row at the most specific scope that sets `enabled` for the plugin says true. */
  ghost predicate SwitchedOn(rows: seq<Row>, pid: string) {
    exists row :: row in rows && Concerns(row, pid) && row.enabled == Some(true) &&
      forall other :: other in rows && Concerns(other, pid) && other.enabled.Some? ==> Priority(other) <= Priority(row)
  }

  /** `p` is the least position among the plugin's rows at its most specific scope,
      whether or not they set `enabled`. Rows with an unknown scope, which the query
      never selects, count as least specific and are compared with zero too. */
  ghost predicate Positioned(rows: seq<Row>, pid: string, p: int) {
    exists top: nat :: PositionedAt(rows, pid, top, p)
  }

  ghost predicate PositionedAt(rows: seq<Row>, pid: string, top: nat, p: int) {
    && (forall row :: row in rows && Concerns(row, pid) ==>
          Priority(row) <= top && (Priority(row) == top ==> p <= row.position))
    && ((exists row :: row in rows && Concerns(row, pid) && Priority(row) == top && row.position == p)
        || (top == 0 && p == 0))
    && (top == 0 ==> p <= 0)
  }

  /** The merged result: exactly the plugins switched on, each at its position. */
  ghost predicate Merged(rows: seq<Row>, r: ResourceEnablements) {
    && (forall pid :: pid in r <==> SwitchedOn(rows, pid))
    && (forall pid :: pid in r ==> Positioned(rows, pid, r[pid]))
  }

  /** No row for the plugin overrides this one, which is one of them. */
  ghost predicate Unrivalled(rows: seq<Row>, pid: string, row: Row) {
    && row in rows && Concerns(row, pid)
    && forall other :: other in rows && Concerns(other, pid) ==> !Overrides(other.scope, row.scope)
  }

  /** The same among the rows that set `enabled`. */
  ghost predicate UnrivalledSetter(rows: seq<Row>, pid: string, row: Row) {
    && row in rows && Concerns(row, pid) && row.enabled.Some?
    && forall other :: other in rows && Concerns(other, pid) && other.enabled.Some? ==> !Overrides(other.scope, row.scope)
  }

  /** Rows for the contest problem override those for the contest, which override those
      for the problem, in whatever order they come. A plugin is on exactly if one of the
      rows that no other overrides says so, among those that say; its position is the
      least that such rows give, among all. */
  lemma MostSpecificDecides(rows: seq<Row>, r: ResourceEnablements, pid: string)
    requires Merged(rows, r)
    requires forall row :: row in rows ==> row.scope in {"contest_problem", "contest", "problem"}
    ensures pid in r <==> exists row :: UnrivalledSetter(rows, pid, row) && row.enabled.value
    ensures pid in r ==> exists row :: Unrivalled(rows, pid, row) && row.position == r[pid]
    ensures pid in r ==> forall row :: Unrivalled(rows, pid, row) ==> r[pid] <= row.position
  {
    assert forall row, other :: row in rows && other in rows ==>
             (Overrides(other.scope, row.scope) <==> Priority(other) > Priority(row));
    hide Priority, Concerns, Overrides;
  }

  // ------------------------------------------------------------------ the merge

  datatype Agg = Agg(posPri: nat, pos: int, enabledPri: Option<nat>, enabled: Option<bool>)

  const NEW_AGG := Agg(0, 0, None, None)

  function Lesser(a: int, b: int): int { if a <= b then a else b }

  /** Fold one row into a plugin's aggregate. */
  function Absorb(agg: Agg, row: Row): Agg {
    var pri := Priority(row);
    var placed :=
      if pri > agg.posPri then agg.(posPri := pri, pos := row.position)
      else if pri == agg.posPri then agg.(pos := Lesser(agg.pos, row.position))
      else agg;
    match row.enabled
    case None => placed
    case Some(e) =>
      if agg.enabledPri.None? || pri > agg.enabledPri.value then
        placed.(enabledPri := Some(pri), enabled := Some(e))
      else if pri == agg.enabledPri.value then
        placed.(enabled := Some(agg.enabled == Some(true) || e))
      else placed
  }

  /** The aggregate says what it should about the rows seen so far. */
  ghost predicate Describes(rows: seq<Row>, pid: string, agg: Agg) {
    && PositionedAt(rows, pid, agg.posPri, agg.pos)
    && (agg.enabledPri.None? <==> agg.enabled.None?)
    && (forall row :: row in rows && Concerns(row, pid) && row.enabled.Some? ==>
          agg.enabledPri.Some? && Priority(row) <= agg.enabledPri.value
          && (Priority(row) == agg.enabledPri.value && row.enabled.value ==> agg.enabled == Some(true)))
    && (agg.enabled.Some? ==>
          exists row :: row in rows && Concerns(row, pid) && Priority(row) == agg.enabledPri.value && row.enabled == agg.enabled)
  }

  lemma AbsorbDescribes(rows: seq<Row>, pid: string, agg: Agg, row: Row)
    requires Describes(rows, pid, agg) && Concerns(row, pid)
    ensures Describes(rows + [row], pid, Absorb(agg, row))
  {
    hide Concerns, Priority;
    var next := Absorb(agg, row);
    assert forall r :: r in rows + [row] <==> r in rows || r == row;
    assert row in rows + [row];
  }

  lemma OtherRowDescribes(rows: seq<Row>, pid: string, agg: Agg, row: Row)
    requires Describes(rows, pid, agg) && !Concerns(row, pid)
    ensures Describes(rows + [row], pid, agg)
  {
    hide Concerns, Priority;
    assert forall r :: r in rows + [row] <==> r in rows || r == row;
  }

  lemma DescribedIsMerged(rows: seq<Row>, pid: string, agg: Agg)
    requires Describes(rows, pid, agg)
    ensures agg.enabled == Some(true) <==> SwitchedOn(rows, pid)
    ensures Positioned(rows, pid, agg.pos)
  {
    hide Concerns, Priority, PositionedAt;
    if agg.enabled.Some? {
      var row :| row in rows && Concerns(row, pid) && Priority(row) == agg.enabledPri.value && row.enabled == agg.enabled;
    }
  }

  function AggOf(best: map<string, Agg>, pid: string): Agg {
    if pid in best then best[pid] else NEW_AGG
  }

  method MergeResourceEnablements(rows: seq<Row>) returns (r: ResourceEnablements)
    ensures Merged(rows, r)
  {
    var best: map<string, Agg> := map[];
    assert forall pid :: Describes([], pid, NEW_AGG);
    hide Describes, SwitchedOn, Positioned, Absorb;
    for i := 0 to |rows|
      invariant forall pid :: Describes(rows[..i], pid, AggOf(best, pid))
    {
      var row := rows[i];
      var pid := ExtractPluginId(row.namespace);
      ghost var before := best;
      best := best[pid := Absorb(AggOf(best, pid), row)];
      assert rows[..i + 1] == rows[..i] + [row];
      forall other ensures Describes(rows[..i + 1], other, AggOf(best, other))
      {
        if other == pid {
          AbsorbDescribes(rows[..i], pid, AggOf(before, pid), row);
        } else {
          OtherRowDescribes(rows[..i], other, AggOf(before, other), row);
        }
      }
    }
    assert rows[..|rows|] == rows;
    r := map pid | pid in best && best[pid].enabled == Some(true) :: best[pid].pos;
    forall pid
      ensures pid in r <==> SwitchedOn(rows, pid)
      ensures pid in r ==> Positioned(rows, pid, r[pid])
    {
      DescribedIsMerged(rows, pid, AggOf(best, pid));
    }
  }

  /** A position is determined by the rows. */
  lemma PositionUnique(rows: seq<Row>, others: seq<Row>, pid: string, p: int, q: int)
    requires forall row :: row in rows <==> row in others
    requires exists row :: row in rows && Concerns(row, pid)
    requires Positioned(rows, pid, p) && Positioned(others, pid, q)
    ensures p == q
  {
    hide Concerns, Priority;
  }

  /** The database may return the rows in any order, with any repetition: the merged
      result is the same. */
  lemma MergeIsOrderIndependent(rows: seq<Row>, others: seq<Row>, r: ResourceEnablements, s: ResourceEnablements)
    requires forall row :: row in rows <==> row in others
    requires Merged(rows, r) && Merged(others, s)
    ensures r == s
  {
    hide Concerns, Priority, Positioned;
    forall pid ensures pid in r <==> pid in s
    {
      assert SwitchedOn(rows, pid) <==> SwitchedOn(others, pid);
    }
    forall pid | pid in r ensures r[pid] == s[pid]
    {
      assert SwitchedOn(rows, pid);
      PositionUnique(rows, others, pid, r[pid], s[pid]);
    }
  }

  lemma PermutedRowsAgree(rows: seq<Row>, others: seq<Row>, r: ResourceEnablements, s: ResourceEnablements)
    requires multiset(rows) == multiset(others)
    requires Merged(rows, r) && Merged(others, s)
    ensures r == s
  {
    forall row ensures row in rows <==> row in others {
      assert row in rows <==> row in multiset(rows);
      assert row in others <==> row in multiset(others);
    }
    MergeIsOrderIndependent(rows, others, r, s);
  }

  /** The plugin that owns the contest's type always runs: first among resource hooks,
      unless the configuration gives it a position. */
  function AddContestTypeOwner(enablements: ResourceEnablements, owner: Option<string>): (r: ResourceEnablements)
    ensures r.Keys == enablements.Keys + if owner.Some? then {owner.value} else {}
    ensures forall pid :: pid in r ==> r[pid] == if pid in enablements then enablements[pid] else I32_MIN
  {
    if owner.Some? && owner.value !in enablements then enablements[owner.value := I32_MIN] else enablements
  }
}
