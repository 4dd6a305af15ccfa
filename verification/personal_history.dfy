/**
 * The personal history view: the fetched reports, the filter controls, the filtered
 * list, the current page, and the delete/edit actions with their identifier guard.
 */
module PersonalHistory {
  import opened Options
  import opened Reports
  import opened HistoryFilter
  import opened Pager
  import opened EditReport

  /** The JSON body of the edit request. */
  datatype EditBody = EditBody(category: string, description: string)

  /** The requests the view sends to the backend. */
  datatype Request = DeleteRequest(id: string) | EditRequest(id: string, body: EditBody)

  /** `confirmDelete`: the request for the selected report, or none when its identifier is unusable. */
  function DeleteRequestFor(selected: Option<Report>): (r: Option<Request>)
    ensures r.Some? <==> UsableId(ReportId(selected))
    ensures r.Some? ==> r.value == DeleteRequest(ReportId(selected).value)
  {
    var id := ReportId(selected);
    if UsableId(id) then Some(DeleteRequest(id.value)) else None
  }

  /** `saveEditedReport`: the request for the edited form, carrying only category and description. */
  function EditRequestFor(edited: EditForm): (r: Option<Request>)
    ensures r.Some? <==> UsableId(ExtractId(edited.dbId, None))
    ensures r.Some? ==> r.value.EditRequest? && r.value.body == EditBody(edited.category, edited.description)
  {
    var id := ExtractId(edited.dbId, None);
    if UsableId(id) then Some(EditRequest(id.value, EditBody(edited.category, edited.description))) else None
  }

  /** A null selection, or one without any identifier, never reaches the network. */
  lemma NoIdNoRequest(r: Report)
    requires r.dbId.NoId? && r.id.None?
    ensures DeleteRequestFor(None).None?
    ensures DeleteRequestFor(Some(r)).None?
    ensures EditRequestFor(InitialForm(r)).None?
  {
  }

  /**
   * The edit body ignores every field but category and description: forms that differ
   * only in e-mail, age, date or zone send the same request.
   */
  lemma EditBodyOnlyCategoryAndDescription(f: EditForm, email: string, age: Age, date: Stamp, zone: string)
    ensures EditRequestFor(f.(userEmail := email, age := age, date := date, zone := zone)) == EditRequestFor(f)
  {
  }

  /**
   * The dialog's form copies `_id` but not the legacy `id`, so a report known only by its
   * legacy `id` can be deleted but its edit is refused as an invalid identifier.
   */
  lemma LegacyIdDeletableNotEditable(r: Report)
    requires r.dbId.NoId? && Truthy(r.id)
    ensures DeleteRequestFor(Some(r)) == Some(DeleteRequest(r.id.value))
    ensures EditRequestFor(InitialForm(r)).None?
  {
  }

  /**
   * 20 reports make two pages: rows 1-15, then rows 16-20; a third `nextPage` finds
   * `currentPage == ceil(20/15)` and does nothing.
   */
  lemma TwentyReportsTwoPages<T>(s: seq<T>)
    requires |s| == 20
    ensures TotalPages(|s|) == 2
    ensures PageSlice(s, 1) == s[..15]
    ensures PageSlice(s, 2) == s[15..]
    ensures PageSlice(s, 3) == []
  {
  }

  class HistoryView {
    var incidents: seq<Report>
    var filters: Criteria
    var filtered: seq<Report>
    var currentPage: nat
    var selected: Option<Report>
    var showDeleteModal: bool
    var showEditModal: bool

    /** The filtered list is always the filter of the fetched list; the page stays within range. */
    ghost predicate Valid()
      reads this
    {
      && filtered == Filtered(incidents, filters)
      && 1 <= currentPage
      && (currentPage == 1 || currentPage <= TotalPages(|filtered|))
    }

    constructor ()
      ensures Valid()
      ensures incidents == [] && filtered == [] && filters == NoCriteria && currentPage == 1
      ensures selected == None && !showDeleteModal && !showEditModal
    {
      incidents, filters, filtered, currentPage := [], NoCriteria, [], 1;
      selected, showDeleteModal, showEditModal := None, false, false;
    }

    /** The filter effect: recompute the filtered list and go back to page 1. */
    method Refilter()
      modifies this`filtered, this`currentPage
      ensures Valid()
      ensures filtered == Filtered(incidents, filters) && currentPage == 1
    {
      filtered := ApplyFilters(incidents, filters);
      currentPage := 1;
    }

    /** A successful fetch replaces the full list; the filter effect then runs on it. */
    method Reload(all: seq<Report>)
      modifies this`incidents, this`filtered, this`currentPage
      ensures Valid()
      ensures incidents == all && filtered == Filtered(all, filters) && currentPage == 1
    {
      incidents := all;
      Refilter();
    }

    /** A change of the filter controls; the filter effect runs on the new controls. */
    method ChangeFilters(c: Criteria)
      modifies this`filters, this`filtered, this`currentPage
      ensures Valid()
      ensures filters == c && filtered == Filtered(incidents, c) && currentPage == 1
      ensures incidents == old(incidents)
    {
      filters := c;
      Refilter();
    }

    /** `nextPage`: advance only while the current page is before the last one. */
    method NextPage()
      requires Valid()
      modifies this`currentPage
      ensures Valid()
      ensures currentPage == if old(currentPage) < TotalPages(|filtered|) then old(currentPage) + 1 else old(currentPage)
    {
      if currentPage < TotalPages(|filtered|) {
        currentPage := currentPage + 1;
      }
    }

    /** `prevPage`: go back only while past page 1. */
    method PrevPage()
      requires Valid()
      modifies this`currentPage
      ensures Valid()
      ensures currentPage == if old(currentPage) > 1 then old(currentPage) - 1 else old(currentPage)
    {
      if currentPage > 1 {
        currentPage := currentPage - 1;
      }
    }

    /** The rows rendered for the current page, drained through the iterator. */
    method Rows() returns (rows: seq<Report>)
      requires Valid()
      ensures rows == PageSlice(filtered, currentPage)
      ensures |filtered| > 0 ==> |rows| > 0
    {
      rows := VisibleRows(filtered, currentPage);
    }

    method DeleteClick(report: Report)
      modifies this`selected, this`showDeleteModal
      ensures selected == Some(report) && showDeleteModal
    {
      selected := Some(report);
      showDeleteModal := true;
    }

    method EditClick(report: Report)
      modifies this`selected, this`showEditModal
      ensures selected == Some(report) && showEditModal
    {
      selected := Some(report);
      showEditModal := true;
    }

    /**
     * `confirmDelete`: with an unusable identifier it returns early, sending nothing and
     * leaving the dialog open; otherwise it sends the request and closes the dialog,
     * whatever the response (a success then reloads through `Reload`).
     */
    method ConfirmDelete() returns (request: Option<Request>)
      modifies this`showDeleteModal
      ensures request == DeleteRequestFor(selected)
      ensures showDeleteModal == (old(showDeleteModal) && request.None?)
    {
      var id := ReportId(selected);
      if !UsableId(id) {
        request := None;
        return;
      }
      request := Some(DeleteRequest(id.value));
      showDeleteModal := false;
    }

    /** `saveEditedReport`: the same guard on the edited form's identifier, then the edit request. */
    method SaveEditedReport(edited: EditForm) returns (request: Option<Request>)
      modifies this`showEditModal
      ensures request == EditRequestFor(edited)
      ensures showEditModal == (old(showEditModal) && request.None?)
    {
      var id := ExtractId(edited.dbId, None);
      if !UsableId(id) {
        request := None;
        return;
      }
      request := Some(EditRequest(id.value, EditBody(edited.category, edited.description)));
      showEditModal := false;
    }
  }

  /** An empty filtered list keeps the view on page 1: `nextPage` and `prevPage` both do nothing. */
  method EmptyListStaysOnFirstPage(view: HistoryView)
    requires view.Valid() && view.filtered == []
    modifies view
    ensures view.currentPage == 1
  {
    view.NextPage();
    view.PrevPage();
  }
}
