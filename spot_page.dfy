/** The page controller of the spot management screen: the component's state
    variables as the fields of one object, and every event handler as a method
    that updates them the way the handler's calls to the state setters do.

    The backend is not part of the model. A handler that talks to it takes the
    outcome of each request as a parameter (whether the write succeeded, and
    the list a refresh `GET /spots` returned, `None` when that request failed)
    and appends the requests it issues to the ghost log `requests`. Each
    handler runs to completion in one step. */
module SpotManagement {
  import opened Wrappers
  import opened SpotTypes
  import SpotView

  class SpotPage {
    // Data store
    var spotList: seq<Spot>
    var districts: seq<District>
    // Dialogs and the spot they act on
    var selectedSpot: Option<Spot>
    var openEdit: bool
    var openDelete: bool
    // View state
    var page: nat
    var rowsPerPage: nat
    var searchTerm: string
    // Requests in flight
    var loadingFetch: bool
    var loadingSave: bool
    var loadingDelete: bool
    // Notification
    var snackbarOpen: bool
    var snackbarMessage: Message
    var snackbarSeverity: Severity
    /** Every request issued so far, oldest first. */
    ghost var requests: seq<Request>

    /** The page always has a positive page size. */
    ghost predicate Valid()
      reads this
    {
      rowsPerPage > 0
    }

    /** The rows that pass the search filter: exactly the listed spots that
        match the current term. */
    function FilteredRows(): (r: seq<Spot>)
      reads this
      ensures forall x :: x in r <==> x in spotList && SpotView.Matches(x, searchTerm)
    {
      var r := SpotView.FilteredRows(spotList, searchTerm);
      assert forall x :: x in r <==> x in spotList && SpotView.Matches(x, searchTerm) by {
        forall x ensures x in r <==> x in spotList && SpotView.Matches(x, searchTerm) {
          SpotView.FilteredRowsMembership(spotList, searchTerm, x);
        }
      }
      r
    }

    /** The rows the table shows on the current page: at most one page of
        filtered rows, starting at the current page's first row. */
    function DisplayedRows(): (r: seq<Spot>)
      reads this
      ensures |r| <= rowsPerPage
      ensures |r| > 0 ==> page * rowsPerPage + |r| <= |FilteredRows()|
      ensures forall k :: 0 <= k < |r| ==> r[k] == FilteredRows()[page * rowsPerPage + k]
    {
      SpotView.DisplayedRows(FilteredRows(), page, rowsPerPage)
    }

    /** With the page's positive page size, every filtered row is shown on
        some page: row `k` is on page `k / rowsPerPage`. */
    lemma FilteredRowOnItsPage(k: nat)
      requires Valid() && k < |FilteredRows()|
      ensures FilteredRows()[k] in SpotView.DisplayedRows(FilteredRows(), k / rowsPerPage, rowsPerPage)
    {
      SpotView.RowOnItsPage(FilteredRows(), rowsPerPage, k);
    }

    /** The state before the first render. */
    constructor ()
      ensures Valid()
      ensures spotList == [] && districts == [] && selectedSpot == None
      ensures !openEdit && !openDelete
      ensures page == 0 && rowsPerPage == 5 && searchTerm == ""
      ensures !loadingFetch && !loadingSave && !loadingDelete
      ensures !snackbarOpen && snackbarMessage == NoMessage && snackbarSeverity == Success
      ensures requests == []
    {
      spotList, districts := [], [];
      selectedSpot, openEdit, openDelete := None, false, false;
      page, rowsPerPage, searchTerm := 0, 5, "";
      loadingFetch, loadingSave, loadingDelete := false, false, false;
      snackbarOpen, snackbarMessage, snackbarSeverity := false, NoMessage, Success;
      requests := [];
    }

    /** The load on mount: both lists are requested together; both are
        replaced only when both requests succeed, the districts projected to
        their id and name; otherwise both keep their values. The fetch flag
        is cleared either way. */
    method FetchData(spotsResult: Option<seq<Spot>>, districtsResult: Option<seq<DistrictRecord>>)
      requires Valid()
      modifies this`spotList, this`districts, this`loadingFetch, this`requests
      ensures Valid()
      ensures requests == old(requests) + [GetSpots, GetDistricts]
      ensures spotsResult.Some? && districtsResult.Some? ==>
        spotList == spotsResult.value && districts == ProjectDistricts(districtsResult.value)
      ensures !(spotsResult.Some? && districtsResult.Some?) ==>
        spotList == old(spotList) && districts == old(districts)
      ensures !loadingFetch
    {
      loadingFetch := true;
      requests := requests + [GetSpots, GetDistricts];
      if spotsResult.Some? && districtsResult.Some? {
        spotList := spotsResult.value;
        districts := ProjectDistricts(districtsResult.value);
      }
      loadingFetch := false;
    }

    /** Dismissing the notification hides it and changes nothing else. */
    method HandleCloseSnackbar()
      requires Valid()
      modifies this`snackbarOpen
      ensures Valid()
      ensures !snackbarOpen
    {
      snackbarOpen := false;
    }

    /** The pager's page change: the requested page, not clamped. */
    method HandleChangePage(newPage: nat)
      requires Valid()
      modifies this`page
      ensures Valid()
      ensures page == newPage
    {
      page := newPage;
    }

    /** A new page size, and back to the first page, which then shows the
        first rows of the filtered list. */
    method HandleChangeRowsPerPage(newRowsPerPage: nat)
      requires Valid()
      requires newRowsPerPage > 0
      modifies this`rowsPerPage, this`page
      ensures Valid()
      ensures rowsPerPage == newRowsPerPage && page == 0
      ensures DisplayedRows() == FilteredRows()[..SpotView.Min(newRowsPerPage, |FilteredRows()|)]
    {
      rowsPerPage := newRowsPerPage;
      page := 0;
    }

    /** Typing in the search box changes the term and leaves the page alone,
        so a narrowed filter can leave the table on an empty page. */
    method SetSearchTerm(term: string)
      requires Valid()
      modifies this`searchTerm
      ensures Valid()
      ensures searchTerm == term
    {
      searchTerm := term;
    }

    /** The "add" button: a fresh draft in the edit dialog. */
    method OpenAdd()
      requires Valid()
      modifies this`selectedSpot, this`openEdit
      ensures Valid()
      ensures selectedSpot == Some(NewDraft()) && !HasId(NewDraft())
      ensures openEdit
    {
      selectedSpot := Some(NewDraft());
      openEdit := true;
    }

    /** A row's edit button: that row in the edit dialog. */
    method OpenEditRow(row: Spot)
      requires Valid()
      requires row in DisplayedRows()
      modifies this`selectedSpot, this`openEdit
      ensures Valid()
      ensures selectedSpot == Some(row) && row in spotList
      ensures openEdit
    {
      SpotView.FilteredRowsMembership(spotList, searchTerm, row);
      selectedSpot := Some(row);
      openEdit := true;
    }

    /** A row's delete button: that row in the delete confirmation. */
    method OpenDeleteRow(row: Spot)
      requires Valid()
      requires row in DisplayedRows()
      modifies this`selectedSpot, this`openDelete
      ensures Valid()
      ensures selectedSpot == Some(row) && row in spotList
      ensures openDelete
    {
      SpotView.FilteredRowsMembership(spotList, searchTerm, row);
      selectedSpot := Some(row);
      openDelete := true;
    }

    /** Cancelling (or dismissing) the edit dialog closes it and keeps the
        selection. */
    method CancelEdit()
      requires Valid()
      modifies this`openEdit
      ensures Valid()
      ensures !openEdit
    {
      openEdit := false;
    }

    /** Cancelling (or dismissing) the delete confirmation closes it and keeps
        the selection. */
    method CancelDelete()
      requires Valid()
      modifies this`openDelete
      ensures Valid()
      ensures !openDelete
    {
      openDelete := false;
    }

    /** The draft being edited, or the empty object when nothing is selected
        (spreading `null` copies no attributes). */
    function Draft(): Spot
      reads this
    {
      selectedSpot.GetOr(NoAttributes)
    }

    /** Editing the name field changes that attribute of the draft only. */
    method SetName(value: string)
      requires Valid()
      modifies this`selectedSpot
      ensures Valid()
      ensures selectedSpot == Some(old(Draft()).(name := Some(value)))
    {
      selectedSpot := Some(Draft().(name := Some(value)));
    }

    /** Editing the description field changes that attribute of the draft only. */
    method SetDescription(value: string)
      requires Valid()
      modifies this`selectedSpot
      ensures Valid()
      ensures selectedSpot == Some(old(Draft()).(description := Some(value)))
    {
      selectedSpot := Some(Draft().(description := Some(value)));
    }

    /** Editing the latitude field changes that attribute of the draft only. */
    method SetLatitude(value: Number)
      requires Valid()
      modifies this`selectedSpot
      ensures Valid()
      ensures selectedSpot == Some(old(Draft()).(latitude := Some(value)))
    {
      selectedSpot := Some(Draft().(latitude := Some(value)));
    }

    /** Editing the longitude field changes that attribute of the draft only. */
    method SetLongitude(value: Number)
      requires Valid()
      modifies this`selectedSpot
      ensures Valid()
      ensures selectedSpot == Some(old(Draft()).(longitude := Some(value)))
    {
      selectedSpot := Some(Draft().(longitude := Some(value)));
    }

    /** Choosing a district changes that attribute of the draft only. */
    method SetDistrictId(value: string)
      requires Valid()
      modifies this`selectedSpot
      ensures Valid()
      ensures selectedSpot == Some(old(Draft()).(districtId := Some(value)))
    {
      selectedSpot := Some(Draft().(districtId := Some(value)));
    }

    /** The save button. With nothing selected it does nothing. Otherwise it
        issues the write `SaveRequest` picks and, only when that succeeds, a
        refresh of the list. The list is replaced only when both succeed; the
        notification then reports success, and otherwise the save error.
        Whatever the outcome the dialog closes, the selection is cleared and
        the save flag is lowered. */
    method HandleSaveSpot(writeOk: bool, refresh: Option<seq<Spot>>)
      requires Valid()
      modifies this`spotList, this`selectedSpot, this`openEdit, this`loadingSave,
               this`snackbarOpen, this`snackbarMessage, this`snackbarSeverity, this`requests
      ensures Valid()
      ensures old(selectedSpot) == None ==> unchanged(this)
      ensures old(selectedSpot) != None ==>
        var spot := old(selectedSpot).value;
        var ok := writeOk && refresh.Some?;
        && requests == old(requests) + [SaveRequest(spot)] + (if writeOk then [GetSpots] else [])
        && spotList == (if ok then refresh.value else old(spotList))
        && snackbarSeverity == (if ok then Success else Error)
        && snackbarMessage == (if !ok then SaveFailed else if HasId(spot) then UpdateSucceeded else CreateSucceeded)
        && snackbarOpen
        && !loadingSave && !openEdit && selectedSpot == None
    {
      if selectedSpot == None {
        return;
      }
      var spot := selectedSpot.value;
      loadingSave := true;
      // try
      var failed := false;
      if HasId(spot) {
        requests := requests + [PutSpot(spot.id.value, spot)];
        if writeOk {
          snackbarMessage := UpdateSucceeded;
        } else {
          failed := true;
        }
      } else {
        var payload := ToCreatePayload(spot);
        requests := requests + [PostSpot(payload)];
        if writeOk {
          snackbarMessage := CreateSucceeded;
        } else {
          failed := true;
        }
      }
      if !failed {
        snackbarSeverity := Success;
        snackbarOpen := true;
        requests := requests + [GetSpots];
        match refresh {
          case Some(list) => spotList := list;
          case None => failed := true;
        }
      }
      // catch
      if failed {
        snackbarMessage := SaveFailed;
        snackbarSeverity := Error;
        snackbarOpen := true;
      }
      // finally
      loadingSave := false;
      openEdit := false;
      selectedSpot := None;
    }

    /** The confirm button of the delete dialog. Without a selected spot with
        a truthy id it does nothing. Otherwise it issues the delete and, only
        when that succeeds, a refresh of the list. The list is replaced only
        when both succeed; the notification then reports success, and
        otherwise the delete error. Whatever the outcome the dialog closes,
        the selection is cleared and the delete flag is lowered. */
    method HandleDeleteConfirmed(deleteOk: bool, refresh: Option<seq<Spot>>)
      requires Valid()
      modifies this`spotList, this`selectedSpot, this`openDelete, this`loadingDelete,
               this`snackbarOpen, this`snackbarMessage, this`snackbarSeverity, this`requests
      ensures Valid()
      ensures !(old(selectedSpot) != None && HasId(old(selectedSpot).value)) ==> unchanged(this)
      ensures old(selectedSpot) != None && HasId(old(selectedSpot).value) ==>
        var id := old(selectedSpot).value.id.value;
        var ok := deleteOk && refresh.Some?;
        && requests == old(requests) + [DeleteSpot(id)] + (if deleteOk then [GetSpots] else [])
        && spotList == (if ok then refresh.value else old(spotList))
        && snackbarSeverity == (if ok then Success else Error)
        && snackbarMessage == (if ok then DeleteSucceeded else DeleteFailed)
        && snackbarOpen
        && !loadingDelete && !openDelete && selectedSpot == None
    {
      if !(selectedSpot != None && HasId(selectedSpot.value)) {
        return;
      }
      var id := selectedSpot.value.id.value;
      loadingDelete := true;
      // try
      var failed := false;
      requests := requests + [DeleteSpot(id)];
      if deleteOk {
        requests := requests + [GetSpots];
        match refresh {
          case Some(list) =>
            spotList := list;
            snackbarMessage := DeleteSucceeded;
            snackbarSeverity := Success;
            snackbarOpen := true;
          case None =>
            failed := true;
        }
      } else {
        failed := true;
      }
      // catch
      if failed {
        snackbarMessage := DeleteFailed;
        snackbarSeverity := Error;
        snackbarOpen := true;
      }
      // finally
      loadingDelete := false;
      openDelete := false;
      selectedSpot := None;
    }
  }

  /** A create the backend rejects: the notification reports the error, the
      dialog closes, the selection is cleared, no refresh is issued and the
      list stays as it was. */
  method FailedCreateScenario(p: SpotPage)
    requires p.Valid()
    modifies p
  {
    var before := p.spotList;
    ghost var log := p.requests;
    p.OpenAdd();
    p.SetName("Ha Long Bay");
    p.HandleSaveSpot(false, None);
    assert p.snackbarSeverity == Error && p.snackbarMessage == SaveFailed && p.snackbarOpen;
    assert !p.openEdit && p.selectedSpot == None;
    assert p.spotList == before;
    assert p.requests == log + [PostSpot(CreatePayload(Some("Ha Long Bay"), Some(""), Some(0.0), Some(0.0), Some("")))];
  }

  /** Confirming the delete of a displayed row that has no id sends nothing,
      changes nothing and leaves the confirmation open. */
  method DeleteRowWithoutIdScenario(p: SpotPage, row: Spot)
    requires p.Valid()
    requires row in p.DisplayedRows() && !HasId(row)
    modifies p
  {
    p.OpenDeleteRow(row);
    var before := p.spotList;
    ghost var log := p.requests;
    p.HandleDeleteConfirmed(true, Some([]));
    assert p.spotList == before && p.requests == log;
    assert p.openDelete && p.selectedSpot == Some(row);
  }
}
