/**
  The delete screen of the apps menu (`deleteApps`): the installed
  containers in pages of 10, a selection toggled by container id, and the
  sequential delete batch over the selection.
*/
module AppsDelete {
  import opened Options
  import opened OrderedDict
  import opened Selection
  import opened Menu
  import opened Chunking
  import Batch
  import opened AppsStatus

  /** The value of a delete choice, and so an entry of `appsBeingRemoved`:
      the label shown and the container id. */
  datatype Removal = Removal(name: string, id: string)

  function RemovalId(r: Removal): string { r.id }
  function RemovalName(r: Removal): string { r.name }

  const SelectedMark := "\U{2705}"

  /** The container name, followed by the selected mark when its id is in
      the selection. */
  function RemovalLabel(name: string, selected: bool): (r: string)
    ensures |r| == |name| + (if selected then 2 else 0)
    ensures r[..|name|] == name
    ensures !selected ==> r == name
  {
    if selected then name + " " + SelectedMark else name
  }

  /** `displayPages` of the delete screen, written as it is there: controls
      only for more than 10 containers, "Page >" while the page is below
      `Math.ceil(n / 10)`. */
  function DeletePageControls(page: int, n: nat): seq<Choice<Removal>>
  {
    if n > Amount then
      [Separator]
      + (if page > 1 then [Item("Page <", PageBack)] else [])
      + (if page < PageCount(n) then [Item("Page >", PageNext)] else [])
    else []
  }

  /** The test on the length at line 372 is the test on the page count of
      the install screen: more than 10 containers is more than one page. */
  lemma DeletePageControlsAgree(page: int, n: nat)
    ensures DeletePageControls(page, n) == PageControls(page, PageCount(n))
  {
    assert n > Amount <==> PageCount(n) > 1;
  }

  /** The item of a container (lines 398-400 and 421). */
  function DeleteItem(c: Container, selection: seq<Removal>): Choice<Removal>
  {
    var shown := RemovalLabel(c.name, c.id in KeysOf(selection, RemovalId));
    Item(shown, Chose(Removal(shown, c.id)))
  }

  function DeleteItems(chunk: seq<Container>, selection: seq<Removal>): seq<Choice<Removal>>
  {
    seq(|chunk|, i requires 0 <= i < |chunk| => DeleteItem(chunk[i], selection))
  }

  /** The choice list of the prompt at line 416 for page `page`, or None
      when `chunkedApps[page - 1]` does not exist and spreading it throws. */
  function DeleteChoices(installed: seq<Container>, page: int, selection: seq<Removal>): Option<seq<Choice<Removal>>>
  {
    var chunks := Reduce(installed);
    if 1 <= page <= |chunks| then
      Some(DeleteItems(chunks[page - 1], selection)
        + DeletePageControls(page, |installed|)
        + [Separator]
        + ActionItems(|selection|, "Delete")
        + [Separator])
    else None
  }

  /** The screen can be drawn exactly on pages 1..ceil(n / 10); with no
      container installed it cannot be drawn at all. */
  lemma DrawnOnlyOnExistingPages(installed: seq<Container>, page: int, selection: seq<Removal>)
    ensures DeleteChoices(installed, page, selection).Some? <==> 1 <= page <= PageCount(|installed|)
    ensures installed == [] ==> DeleteChoices(installed, page, selection).None?
  {
  }

  /** Every container of a page is an installed container. */
  lemma PageMembers(installed: seq<Container>, i: nat, c: Container)
    requires i < |Reduce(installed)| && c in Reduce(installed)[i]
    ensures c in installed
  {
    ReduceChunk(installed, i);
  }

  /** The items offer removals and nothing else; each one is a container of
      the page, labelled by whether its id is selected. */
  lemma DeleteItemsOffer(chunk: seq<Container>, selection: seq<Removal>, a: Answer<Removal>)
    ensures forall c :: c in DeleteItems(chunk, selection) && c.Item? ==> c.value.Chose?
    ensures Offered(a, DeleteItems(chunk, selection)) ==>
      exists c :: c in chunk && a == Chose(Removal(RemovalLabel(c.name, c.id in KeysOf(selection, RemovalId)), c.id))
  {
    var items := DeleteItems(chunk, selection);
    if Offered(a, items) {
      var x :| x in items && x.Item? && x.value == a;
      var i :| 0 <= i < |items| && items[i] == x;
      assert chunk[i] in chunk;
    }
  }

  /** A drawn page offers what its items, its page controls and its action
      items offer, and nothing else. */
  lemma DeleteChoicesParts(installed: seq<Container>, page: int, selection: seq<Removal>, a: Answer<Removal>)
    requires 1 <= page <= PageCount(|installed|)
    ensures Offered(a, DeleteChoices(installed, page, selection).value) <==>
      Offered(a, DeleteItems(Reduce(installed)[page - 1], selection))
      || Offered(a, DeletePageControls(page, |installed|))
      || Offered(a, ActionItems<Removal>(|selection|, "Delete"))
  {
    var items := DeleteItems(Reduce(installed)[page - 1], selection);
    var controls := DeletePageControls(page, |installed|);
    var actions := ActionItems<Removal>(|selection|, "Delete");
    OfferedAppend(a, items + controls + [Separator] + actions, [Separator]);
    OfferedAppend(a, items + controls + [Separator], actions);
    OfferedAppend(a, items + controls, [Separator]);
    OfferedAppend(a, items, controls);
    assert !Offered(a, [Separator]);
  }

  /** A picked item of a drawn page is a container of that page, labelled
      by whether its id is selected. */
  lemma DeletePickOffer(installed: seq<Container>, page: int, selection: seq<Removal>, r: Removal)
    requires 1 <= page <= PageCount(|installed|)
    requires Offered(Chose(r), DeleteChoices(installed, page, selection).value)
    ensures exists c :: c in Reduce(installed)[page - 1] && r == Removal(RemovalLabel(c.name, c.id in KeysOf(selection, RemovalId)), c.id)
  {
    DeleteChoicesParts(installed, page, selection, Chose(r));
    DeletePageControlsAgree(page, |installed|);
    DeleteItemsOffer(Reduce(installed)[page - 1], selection, Chose(r));
  }

  /** "Page >" is on offer exactly for more than 10 containers and a page
      below the last, "Page <" exactly for more than 10 containers and a
      page after the first. */
  lemma DeleteTurnOffer(installed: seq<Container>, page: int, selection: seq<Removal>, a: Answer<Removal>)
    requires 1 <= page <= PageCount(|installed|)
    requires a.PageNext? || a.PageBack?
    ensures a.PageNext? ==> (Offered(a, DeleteChoices(installed, page, selection).value) <==> |installed| > Amount && page < PageCount(|installed|))
    ensures a.PageBack? ==> (Offered(a, DeleteChoices(installed, page, selection).value) <==> |installed| > Amount && page > 1)
  {
    DeleteChoicesParts(installed, page, selection, a);
    DeletePageControlsAgree(page, |installed|);
    DeleteItemsOffer(Reduce(installed)[page - 1], selection, a);
  }

  /** Delete is on offer exactly when the selection is non-empty; Back and
      Exit always are. */
  lemma DeleteActionOffer(installed: seq<Container>, page: int, selection: seq<Removal>, a: Answer<Removal>)
    requires 1 <= page <= PageCount(|installed|)
    requires a.Confirm? || a.Back? || a.Exit?
    ensures a.Confirm? ==> (Offered(a, DeleteChoices(installed, page, selection).value) <==> |selection| > 0)
    ensures a.Back? || a.Exit? ==> Offered(a, DeleteChoices(installed, page, selection).value)
  {
    DeleteChoicesParts(installed, page, selection, a);
    DeletePageControlsAgree(page, |installed|);
    DeleteItemsOffer(Reduce(installed)[page - 1], selection, a);
    var actions := ActionItems<Removal>(|selection|, "Delete");
    if a.Back? || a.Exit? {
      assert actions[|actions| - (if a.Back? then 2 else 1)] in actions;
    }
  }

  /** The three strings of the delete batch. */
  const DeleteLabels := Batch.Labels("Deleting...", "Successfully Deleted", "Deletion Failed")

  /** With no rejected call, the dictionary holds each selected name once,
      in selection order, and the count line reports the distinct names as
      queued and, as deleted, those whose last delete call resolved truthy;
      with distinct names, that is every selected app, in selection order,
      and exactly the truthy calls. */
  lemma DeleteCount(selection: seq<Removal>, calls: seq<Batch.Call>)
    requires |calls| == |selection|
    requires forall i :: 0 <= i < |calls| ==> calls[i].Resolved?
    ensures var names := KeysOf(selection, RemovalName);
      var run := Batch.Batch(names, calls, DeleteLabels);
      Keys(run.statuses) == Dedup(names)
      && Batch.Tally(run.statuses, DeleteLabels) == (|set k | k in names|, |Batch.LastTruthyNames(names, calls)|)
    ensures var names := KeysOf(selection, RemovalName);
      var run := Batch.Batch(names, calls, DeleteLabels);
      Distinct(names) ==>
        Keys(run.statuses) == names && Batch.Tally(run.statuses, DeleteLabels) == (|selection|, Batch.TruthyCount(calls))
  {
    var names := KeysOf(selection, RemovalName);
    Batch.BatchLastWrite(names, calls, DeleteLabels);
    Batch.BatchTally(names, calls, DeleteLabels);
    if Distinct(names) {
      Batch.BatchSettlesEveryItem(names, calls, DeleteLabels);
    }
  }

  /** A selected entry names an installed container by its id and its plain
      name. */
  ghost predicate Listed(r: Removal, installed: seq<Container>)
  {
    exists c :: c in installed && c.id == r.id && c.name == r.name
  }

  /** An offered page action on a drawn page lands on a drawn page. */
  lemma TurnInRange(installed: seq<Container>, page: int, selection: seq<Removal>, a: Answer<Removal>)
    requires a.PageNext? || a.PageBack?
    requires DeleteChoices(installed, page, selection).Some?
    requires Offered(a, DeleteChoices(installed, page, selection).value)
    ensures 1 <= Navigate(page, a) <= PageCount(|installed|)
  {
    DrawnOnlyOnExistingPages(installed, page, selection);
    DeleteTurnOffer(installed, page, selection, a);
  }

  /** Every selected entry names an installed container. */
  ghost predicate AllListed(selection: seq<Removal>, installed: seq<Container>)
  {
    forall r :: r in selection ==> Listed(r, installed)
  }

  class DeleteScreen {
    var installed: seq<Container>
    var selection: seq<Removal>
    var page: int
    var loop: bool
    var halt: Halt

    /** Ids in the selection are unique, and every entry carries the plain
        name of an installed container, which is the key of its status in
        the delete batch. */
    ghost predicate Valid()
      reads this
    {
      page >= 1
      && Unique(KeysOf(selection, RemovalId))
      && AllListed(selection, installed)
    }

    constructor (listing: seq<Container>)
      ensures Valid() && installed == listing && selection == [] && page == 1 && loop && halt == Running
    {
      installed, selection, page, loop, halt := listing, [], 1, true, Running;
    }

    /** Picking a container: an entry with its id is removed, otherwise the
        picked entry is appended (lines 511-515). An entry is appended only
        while its label carries no mark, so it holds the plain name. */
    method Pick(c: Container)
      requires Valid() && c in installed
      modifies this
      ensures Valid()
      ensures selection == Toggle(old(selection), Removal(RemovalLabel(c.name, c.id in KeysOf(old(selection), RemovalId)), c.id), RemovalId)
      ensures installed == old(installed) && page == old(page) && loop == old(loop) && halt == old(halt)
    {
      var selected := c.id in KeysOf(selection, RemovalId);
      var r := Removal(RemovalLabel(c.name, selected), c.id);
      ToggleUnique(selection, r, RemovalId);
      var next := Toggle(selection, r, RemovalId);
      forall x | x in next ensures Listed(x, installed) {
        if selected {
          assert x in selection;
        } else if x != r {
          assert x in selection;
        }
      }
      selection := next;
    }

    /** The first half of a pass of the do-while body: the page is drawn,
        or spreading a chunk that does not exist throws. */
    method Draw() returns (choices: Option<seq<Choice<Removal>>>)
      requires Valid() && loop && halt == Running
      modifies this
      ensures Valid()
      ensures choices == DeleteChoices(installed, page, selection)
      ensures installed == old(installed) && selection == old(selection) && page == old(page) && loop
      ensures halt == if choices.None? then Threw else Running
    {
      choices := DeleteChoices(installed, page, selection);
      if choices.None? {
        halt := Threw;
      }
    }

    /** The second half: the operator's answer to the drawn page is
        handled. For Delete, `deletions` gives how each selected app's
        delete call settles, `deleteMore` the answer to "delete more?" and
        `refreshed` the listing fetched again after a yes. */
    method Handle(a: Answer<Removal>, deletions: seq<Batch.Call>, deleteMore: bool, refreshed: seq<Container>)
        returns (report: Option<Batch.Run>)
      requires Valid() && loop && halt == Running
      requires DeleteChoices(installed, page, selection).Some?
      requires Offered(a, DeleteChoices(installed, page, selection).value)
      requires a.Confirm? ==> |deletions| == |selection|
      modifies this
      ensures Valid()
      ensures !a.Confirm? ==> report == None
      ensures a.Chose? ==>
        selection == Toggle(old(selection), a.value, RemovalId) && page == old(page) && installed == old(installed) && loop && halt == Running
      ensures a.PageNext? ==> page == old(page) + 1 && page <= PageCount(|installed|) && selection == old(selection) && loop && halt == Running
      ensures a.PageBack? ==> page == old(page) - 1 && 1 <= page && selection == old(selection) && loop && halt == Running
      ensures a.Back? ==> page == old(page) && selection == old(selection) && !loop && halt == Running
      ensures a.Exit? ==> page == old(page) && selection == old(selection) && halt == Exited
      ensures a.Confirm? ==>
        page == old(page) && report == Some(Batch.Batch(KeysOf(old(selection), RemovalName), deletions, DeleteLabels))
      ensures a.Confirm? && report.value.aborted ==> halt == Threw && selection == old(selection)
      ensures a.Confirm? && !report.value.aborted ==>
        halt == Running && loop == deleteMore
        && selection == (if deleteMore then [] else old(selection))
        && installed == (if deleteMore then refreshed else old(installed))
    {
      report := None;
      match a {
        case Back =>
          loop := false;
        case Exit =>
          halt := Exited;
        case PageNext =>
          TurnInRange(installed, page, selection, a);
          Turn(a);
        case PageBack =>
          TurnInRange(installed, page, selection, a);
          Turn(a);
        case Confirm =>
          var run := Delete(deletions, deleteMore, refreshed);
          report := Some(run);
        case Chose(r) =>
          Choose(r);
      }
    }

    /** "Page <" and "Page >" (lines 441-451), taken only where
        they land on a drawn page (`TurnInRange`). */
    method Turn(a: Answer<Removal>)
      requires Valid() && (a.PageNext? || a.PageBack?)
      requires 1 <= Navigate(page, a) <= PageCount(|installed|)
      modifies this
      ensures Valid()
      ensures page == Navigate(old(page), a) && 1 <= page <= PageCount(|installed|)
      ensures installed == old(installed) && selection == old(selection) && loop == old(loop) && halt == old(halt)
    {
      page := Navigate(page, a);
    }

    /** A picked item of the drawn page toggles its container. */
    method Choose(r: Removal)
      requires Valid()
      requires DeleteChoices(installed, page, selection).Some?
      requires Offered(Chose(r), DeleteChoices(installed, page, selection).value)
      modifies this
      ensures Valid()
      ensures selection == Toggle(old(selection), r, RemovalId)
      ensures installed == old(installed) && page == old(page) && loop == old(loop) && halt == old(halt)
    {
      DrawnOnlyOnExistingPages(installed, page, selection);
      DeletePickOffer(installed, page, selection, r);
      var c :| c in Reduce(installed)[page - 1]
        && r == Removal(RemovalLabel(c.name, c.id in KeysOf(selection, RemovalId)), c.id);
      PageMembers(installed, page - 1, c);
      Pick(c);
    }

    /** Delete (lines 453-505): the batch over the selection in order, then,
        unless a call threw, "delete more?": yes empties the selection and
        takes the listing fetched again, keeping the page; no leaves the
        loop. */
    method Delete(deletions: seq<Batch.Call>, deleteMore: bool, refreshed: seq<Container>) returns (run: Batch.Run)
      requires Valid() && |deletions| == |selection|
      modifies this
      ensures Valid()
      ensures run == Batch.Batch(KeysOf(old(selection), RemovalName), deletions, DeleteLabels)
      ensures page == old(page)
      ensures run.aborted ==> halt == Threw && selection == old(selection) && installed == old(installed)
      ensures !run.aborted ==>
        halt == old(halt) && loop == deleteMore
        && selection == (if deleteMore then [] else old(selection))
        && installed == (if deleteMore then refreshed else old(installed))
    {
      loop := false;
      var statuses, aborted := Batch.RunBatch(KeysOf(selection, RemovalName), deletions, DeleteLabels);
      run := Batch.Run(statuses, aborted);
      if aborted {
        halt := Threw;
      } else if deleteMore {
        selection := [];
        installed := refreshed;
        loop := true;
      }
    }
  }

  /** "Delete more" keeps the page number. When the fetched listing has
      fewer pages than that, the next pass cannot draw the screen and
      throws; so does any pass once nothing is installed. */
  lemma StalePageAfterDeleteMore(refreshed: seq<Container>, page: int)
    requires page > PageCount(|refreshed|)
    ensures DeleteChoices(refreshed, page, []).None?
  {
    DrawnOnlyOnExistingPages(refreshed, page, []);
  }

  /** Eleven containers make two pages, the second holding only the
      eleventh; after it is deleted and a listing of ten is fetched, page 2
      no longer exists. */
  lemma ElevenThenTen(listing: seq<Container>)
    requires |listing| == 11
    ensures PageCount(|listing|) == 2 && Reduce(listing)[1] == [listing[10]]
    ensures DeleteChoices(listing[..10], 2, []).None?
  {
    ReduceChunk(listing, 1);
    assert listing[10..11] == [listing[10]];
  }
}
