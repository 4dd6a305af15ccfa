/**
 * The local personal-statistics view: an in-memory list of incidents, deleted from and
 * edited in place by identifier, with the two dialogs those actions close.
 */
module PersonalStatistics {
  import opened Options
  import opened Seqs

  /**
   * A listed incident: its optional `id` and the other fields, kept as they are. An
   * incident without `id` (the seeded example has none) carries `None`.
   */
  datatype Incident = Incident(id: Option<string>, fields: map<string, string>)

  /** `list.filter(x => x.id !== id)`: `===` on a missing `id` matches every other missing `id`. */
  function RemoveById(s: seq<Incident>, id: Option<string>): (r: seq<Incident>)
    ensures forall x :: x in r <==> x in s && x.id != id
    ensures forall x :: multiset(r)[x] == if x.id != id then multiset(s)[x] else 0
    ensures IsSubsequence(r, s)
    ensures |r| <= |s|
  {
    if s == [] then []
    else
      var rest := RemoveById(s[1..], id);
      ConsSubsequence(rest, s, s[0].id != id);
      assert [] + rest == rest;
      assert s == [s[0]] + s[1..];
      assert multiset(s) == multiset{s[0]} + multiset(s[1..]);
      if s[0].id != id then [s[0]] + rest else rest
  }

  /** `list.map(r => r.id === edited.id ? edited : r)`. */
  function ReplaceById(s: seq<Incident>, edited: Incident): (r: seq<Incident>)
    ensures |r| == |s|
    ensures forall i :: 0 <= i < |s| ==> r[i] == if s[i].id == edited.id then edited else s[i]
  {
    if s == [] then [] else [if s[0].id == edited.id then edited else s[0]] + ReplaceById(s[1..], edited)
  }

  /** Nothing is removed when no incident has the identifier. */
  lemma {:induction false} RemoveAbsent(s: seq<Incident>, id: Option<string>)
    requires forall x :: x in s ==> x.id != id
    ensures RemoveById(s, id) == s
  {
    if s != [] {
      assert s[0] in s;
      assert forall x :: x in s[1..] ==> x in s;
      RemoveAbsent(s[1..], id);
      assert s == [s[0]] + s[1..];
    }
  }

  /** Removing twice by the same identifier removes nothing more. */
  lemma RemoveIdempotent(s: seq<Incident>, id: Option<string>)
    ensures RemoveById(RemoveById(s, id), id) == RemoveById(s, id)
  {
    RemoveAbsent(RemoveById(s, id), id);
  }

  /**
   * A selection without `id` removes every incident without `id`, and only those: the
   * seeded example is deleted along with any other unidentified incident.
   */
  lemma RemoveMissingId(s: seq<Incident>)
    ensures forall x :: x in RemoveById(s, None) <==> x in s && x.id.Some?
  {
  }

  /** Editing keeps the set of identifiers: deleting by the edited `id` afterwards removes the same incidents. */
  lemma {:induction false} RemoveAfterReplace(s: seq<Incident>, edited: Incident)
    ensures RemoveById(ReplaceById(s, edited), edited.id) == RemoveById(s, edited.id)
  {
    if s != [] {
      RemoveAfterReplace(s[1..], edited);
      assert ReplaceById(s, edited)[1..] == ReplaceById(s[1..], edited);
    }
  }

  /** Replacing twice with the same edit is replacing once. */
  lemma ReplaceIdempotent(s: seq<Incident>, edited: Incident)
    ensures ReplaceById(ReplaceById(s, edited), edited) == ReplaceById(s, edited)
  {
  }

  /** An edit whose `id` no incident has changes nothing. */
  lemma ReplaceAbsent(s: seq<Incident>, edited: Incident)
    requires forall x :: x in s ==> x.id != edited.id
    ensures ReplaceById(s, edited) == s
  {
    var r := ReplaceById(s, edited);
    assert forall i :: 0 <= i < |s| ==> s[i] in s;
  }

  class PersonalStatisticsView {
    var incidentes: seq<Incident>
    var selectedReport: Option<Incident>
    var showDeleteModal: bool
    var showEditModal: bool

    /** The list starts with the one seeded example, which has no `id`. */
    constructor (seed: map<string, string>)
      ensures incidentes == [Incident(None, seed)]
      ensures selectedReport == None && !showDeleteModal && !showEditModal
    {
      incidentes := [Incident(None, seed)];
      selectedReport := None;
      showDeleteModal, showEditModal := false, false;
    }

    method HandleDeleteClick(rep: Incident)
      modifies this`selectedReport, this`showDeleteModal
      ensures selectedReport == Some(rep) && showDeleteModal
    {
      selectedReport := Some(rep);
      showDeleteModal := true;
    }

    method HandleEditClick(rep: Incident)
      modifies this`selectedReport, this`showEditModal
      ensures selectedReport == Some(rep) && showEditModal
    {
      selectedReport := Some(rep);
      showEditModal := true;
    }

    /**
     * `confirmDelete`: keeps exactly the incidents whose `id` differs from the selected
     * one, in their order, and closes the dialog. It runs only from the dialog that
     * `HandleDeleteClick` opened, so a report is selected.
     */
    method ConfirmDelete()
      requires selectedReport.Some?
      modifies this`incidentes, this`showDeleteModal
      ensures incidentes == RemoveById(old(incidentes), selectedReport.value.id)
      ensures !showDeleteModal
    {
      incidentes := RemoveById(incidentes, selectedReport.value.id);
      showDeleteModal := false;
    }

    /** `saveEditedReport`: every incident with the edit's `id` becomes the edit; the dialog closes. */
    method SaveEditedReport(editedData: Incident)
      modifies this`incidentes, this`showEditModal
      ensures incidentes == ReplaceById(old(incidentes), editedData)
      ensures !showEditModal
    {
      incidentes := ReplaceById(incidentes, editedData);
      showEditModal := false;
    }
  }
}
