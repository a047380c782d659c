/**
  The install screen of the apps menu (`installApps`): one catalog page at a
  time, with every item labelled by whether it is installed and whether it
  is selected, a selection kept across pages, and the sequential install
  batch over the selection.
*/
module AppsInstall {
  import opened Options
  import opened OrderedDict
  import opened Selection
  import opened Menu
  import Batch

  /** An entry of the catalog listing: `name` and `_id`. */
  datatype CatalogApp = CatalogApp(name: string, id: string)

  /** One fetched catalog page (`apps.data`). */
  datatype CatalogPage = CatalogPage(results: seq<CatalogApp>, totalPages: int, totalApps: int)

  /** The value of a catalog choice, and so an entry of `appsBeingInstalled`:
      the label built so far, the id and the catalog name. */
  datatype Pick = Pick(name: string, id: string, original: string)

  function PickId(p: Pick): string { p.id }

  const InstalledMark := "\U{2714}\U{FE0F}"
  const NotInstalledMark := "\U{274C}"
  const SelectedMark := "\U{2705}"

  /** The label of a catalog item: its name, then the installed or the
      not-installed mark, then the selected mark when it is selected. The
      four combinations give four different labels, and the name can be
      read back from the front. */
  function Label(name: string, installed: bool, selected: bool): (r: string)
    ensures |r| > |name| && r[..|name|] == name
    ensures |r| == |name| + (if installed then 3 else 2) + (if selected then 2 else 0)
    ensures selected <==> r[|r| - 1] == SelectedMark[0]
  {
    var marked := name + " " + (if installed then InstalledMark else NotInstalledMark);
    if selected then marked + " " + SelectedMark else marked
  }

  /** Equal labels of the same name mean equal installed and selected states. */
  lemma LabelDeterminesState(name: string, i1: bool, s1: bool, i2: bool, s2: bool)
    requires Label(name, i1, s1) == Label(name, i2, s2)
    ensures i1 == i2 && s1 == s2
  {
    var r := Label(name, i1, s1);
    assert s1 == s2 by {
      assert s1 <==> r[|r| - 1] == SelectedMark[0];
      assert s2 <==> r[|r| - 1] == SelectedMark[0];
    }
  }

  /** The chain of `map`s at lines 198-205 for one catalog app. */
  function ItemChoice(app: CatalogApp, installedNames: seq<string>, selection: seq<Pick>): Choice<Pick>
  {
    var installed := app.name in installedNames;
    var selected := app.id in KeysOf(selection, PickId);
    Item(Label(app.name, installed, selected), Chose(Pick(Label(app.name, installed, false), app.id, app.name)))
  }

  function ItemChoices(apps: seq<CatalogApp>, installedNames: seq<string>, selection: seq<Pick>): seq<Choice<Pick>>
  {
    seq(|apps|, i requires 0 <= i < |apps| => ItemChoice(apps[i], installedNames, selection))
  }

  /** The whole choice list of the prompt at line 245. */
  function Choices(page: int, view: CatalogPage, installedNames: seq<string>, selection: seq<Pick>): seq<Choice<Pick>>
  {
    ItemChoices(view.results, installedNames, selection)
    + PageControls(page, view.totalPages)
    + [Separator]
    + ActionItems(|selection|, "Install")
  }

  /** The items offer picks and nothing else; each pick describes an app of
      the page: its id, its catalog name, and its label without the
      selected mark. */
  lemma ItemsOffer(apps: seq<CatalogApp>, installedNames: seq<string>, selection: seq<Pick>, a: Answer<Pick>)
    ensures forall c :: c in ItemChoices(apps, installedNames, selection) && c.Item? ==> c.value.Chose?
    ensures Offered(a, ItemChoices(apps, installedNames, selection)) ==>
      exists app :: app in apps && a == Chose(Pick(Label(app.name, app.name in installedNames, false), app.id, app.name))
  {
    var items := ItemChoices(apps, installedNames, selection);
    if Offered(a, items) {
      var c :| c in items && c.Item? && c.value == a;
      var i :| 0 <= i < |items| && items[i] == c;
      assert apps[i] in apps;
    }
  }

  /** What the prompt can return: a pick of an item of the page, a page
      control exactly where `displayPages` offers one, Install exactly when
      the selection is non-empty, and Back and Exit always. */
  lemma ChoicesOffer(page: int, view: CatalogPage, installedNames: seq<string>, selection: seq<Pick>, a: Answer<Pick>)
    ensures a.Chose? ==> (Offered(a, Choices(page, view, installedNames, selection)) <==>
      Offered(a, ItemChoices(view.results, installedNames, selection)))
    ensures a.PageNext? ==> (Offered(a, Choices(page, view, installedNames, selection)) <==> view.totalPages > 1 && page < view.totalPages)
    ensures a.PageBack? ==> (Offered(a, Choices(page, view, installedNames, selection)) <==> view.totalPages > 1 && page > 1)
    ensures a.Confirm? ==> (Offered(a, Choices(page, view, installedNames, selection)) <==> |selection| > 0)
    ensures a.Back? || a.Exit? ==> Offered(a, Choices(page, view, installedNames, selection))
  {
    ItemsOffer(view.results, installedNames, selection, a);
    LayoutOffers(a, ItemChoices(view.results, installedNames, selection), page, view.totalPages, |selection|, "Install");
  }

  /** Every item of the page can be picked. */
  lemma ItemOffered(page: int, view: CatalogPage, installedNames: seq<string>, selection: seq<Pick>, i: nat)
    requires i < |view.results|
    ensures Offered(ItemChoice(view.results[i], installedNames, selection).value, Choices(page, view, installedNames, selection))
  {
    var items := ItemChoices(view.results, installedNames, selection);
    var a := ItemChoice(view.results[i], installedNames, selection).value;
    assert items[i] in items;
    ChoicesOffer(page, view, installedNames, selection, a);
  }

  /** Selecting a catalog item (lines 350-355): nothing happens to an item
      whose name is installed; otherwise the toggle by id. */
  function Select(selection: seq<Pick>, p: Pick, installedNames: seq<string>): seq<Pick>
  {
    if p.original in installedNames then selection else Toggle(selection, p, PickId)
  }

  /** Selecting keeps the ids of the selection unique, and flips the
      membership of the picked id unless its name is installed. */
  lemma SelectSpec(selection: seq<Pick>, p: Pick, installedNames: seq<string>, id: string)
    requires Unique(KeysOf(selection, PickId))
    ensures Unique(KeysOf(Select(selection, p, installedNames), PickId))
    ensures p.original in installedNames ==> Select(selection, p, installedNames) == selection
    ensures p.original !in installedNames ==>
      (id in KeysOf(Select(selection, p, installedNames), PickId) <==>
        (if id == p.id then id !in KeysOf(selection, PickId) else id in KeysOf(selection, PickId)))
    ensures p.original !in installedNames && p.id !in KeysOf(selection, PickId) ==>
      Select(selection, p, installedNames) == selection + [p]
    ensures p.original !in installedNames && p.id in KeysOf(selection, PickId) ==>
      Select(selection, p, installedNames) == Without(selection, p.id, PickId)
  {
    ToggleUnique(selection, p, PickId);
    ToggleMembership(selection, p, PickId, id);
  }

  // ---------------------------------------------------------------------
  // The install batch (lines 269-330)

  /** How `getApp(app.id)` settles: it rejects, or it resolves and the app
      does or does not list "User_Prompts" among its settings. */
  datatype AppInfo = InfoRejected | Info(userPrompts: bool)

  /** What the environment does for one selected app. */
  datatype Attempt = Attempt(info: AppInfo, call: Batch.Call)

  /** A value of `appsInstalling`: the status object, or the bare string the
      failure branch assigns in its place. */
  datatype Entry = Status(status: string, message: string) | Bare(text: string)

  datatype InstallRun = InstallRun(statuses: Dict<Entry>, aborted: bool)

  const Installing := "Installing..."
  const Installed := "Successfully Installed"
  const InstallFailed := "Installation Failed"

  function AccessUrl(name: string, domain: string): string
  {
    "Accessible at: https://" + name + "." + domain
  }

  /** One iteration of the loop at line 272, on a batch not yet aborted.
      `domain` is the `domain` setting, absent when none is stored. */
  function InstallStep(d: Dict<Entry>, app: Pick, at: Attempt, domain: Option<string>): InstallRun
  {
    match at.info
    case InfoRejected => InstallRun(d, true)                // getApp rejects
    case Info(prompts) =>
      if prompts then InstallRun(d, true)                   // printMessage is not defined
      else
        var d1 := Put(d, app.original, Status(Installing, ""));
        match at.call
        case Rejected => InstallRun(d1, true)              // installApp rejects
        case Resolved(ok) =>
          if !ok then InstallRun(Put(d1, app.original, Bare(InstallFailed)), false)
          else match domain
            case None => InstallRun(Put(d1, app.original, Status(Installed, "")), true)  // domain.value of null
            case Some(dv) => InstallRun(Put(d1, app.original, Status(Installed, AccessUrl(app.original, dv))), false)
  }

  function InstallBatch(apps: seq<Pick>, attempts: seq<Attempt>, domain: Option<string>): InstallRun
    requires |attempts| == |apps|
  {
    if apps == [] then InstallRun([], false)
    else
      var n := |apps| - 1;
      var prev := InstallBatch(apps[..n], attempts[..n], domain);
      if prev.aborted then prev else InstallStep(prev.statuses, apps[n], attempts[n], domain)
  }

  predicate IsInstalled(e: Entry) { e.Status? && e.status == Installed }

  /** The count line: keys queued, and values whose status is
      "Successfully Installed". */
  function InstallTally(statuses: Dict<Entry>): (nat, nat)
  {
    (|statuses|, CountValues(statuses, IsInstalled))
  }

  lemma {:induction false} InstallAbortSticks(apps: seq<Pick>, attempts: seq<Attempt>, domain: Option<string>, k: nat)
    requires |attempts| == |apps| && k <= |apps|
    requires InstallBatch(apps[..k], attempts[..k], domain).aborted
    ensures InstallBatch(apps, attempts, domain) == InstallBatch(apps[..k], attempts[..k], domain)
    decreases |apps| - k
  {
    if k < |apps| {
      var n := |apps| - 1;
      assert apps[..n][..k] == apps[..k] && attempts[..n][..k] == attempts[..k];
      InstallAbortSticks(apps[..n], attempts[..n], domain, k);
      InstallAbortedStep(apps, attempts, domain);
    } else {
      assert apps[..k] == apps && attempts[..k] == attempts;
    }
  }

  /** An aborted batch ignores its next app. */
  lemma InstallAbortedStep(apps: seq<Pick>, attempts: seq<Attempt>, domain: Option<string>)
    requires |attempts| == |apps| && apps != []
    requires InstallBatch(apps[..|apps| - 1], attempts[..|apps| - 1], domain).aborted
    ensures InstallBatch(apps, attempts, domain) == InstallBatch(apps[..|apps| - 1], attempts[..|apps| - 1], domain)
  {
  }

  /** The loop of the install branch, in selection order; an exception
      leaves the loop at once. */
  method RunInstallBatch(apps: seq<Pick>, attempts: seq<Attempt>, domain: Option<string>)
      returns (statuses: Dict<Entry>, aborted: bool)
    requires |attempts| == |apps|
    ensures InstallRun(statuses, aborted) == InstallBatch(apps, attempts, domain)
  {
    statuses, aborted := [], false;
    var i := 0;
    while i < |apps| && !aborted
      invariant 0 <= i <= |apps|
      invariant InstallRun(statuses, aborted) == InstallBatch(apps[..i], attempts[..i], domain)
    {
      assert apps[..i + 1][..i] == apps[..i] && attempts[..i + 1][..i] == attempts[..i];
      var app, at := apps[i], attempts[i];
      if at.info.InfoRejected? || at.info.userPrompts {
        aborted := true;
      } else {
        statuses := Put(statuses, app.original, Status(Installing, ""));
        match at.call {
          case Rejected =>
            aborted := true;
          case Resolved(ok) =>
            if !ok {
              statuses := Put(statuses, app.original, Bare(InstallFailed));
            } else if domain.None? {
              statuses := Put(statuses, app.original, Status(Installed, ""));
              aborted := true;
            } else {
              statuses := Put(statuses, app.original, Status(Installed, AccessUrl(app.original, domain.value)));
            }
        }
      }
      i := i + 1;
    }
    if aborted {
      InstallAbortSticks(apps, attempts, domain, i);
    } else {
      assert apps[..i] == apps && attempts[..i] == attempts;
    }
  }

  function Originals(apps: seq<Pick>): seq<string>
  {
    seq(|apps|, i requires 0 <= i < |apps| => apps[i].original)
  }

  lemma OriginalsLast(apps: seq<Pick>)
    requires apps != []
    ensures var n := |apps| - 1;
      Originals(apps) == Originals(apps[..n]) + [apps[n].original] && Originals(apps)[..n] == Originals(apps[..n])
  {
  }

  /** The entry an app ends with when nothing throws. */
  function Settled(app: Pick, ok: bool, dv: string): Entry
  {
    if ok then Status(Installed, AccessUrl(app.original, dv)) else Bare(InstallFailed)
  }

  /** When nothing throws (getApp resolves without user prompts, installApp
      resolves, the domain setting exists) and the names are distinct, the
      batch visits the selection in order, keys the dictionary by name in
      that order, and leaves each app succeeded with its access URL or
      failed, by its own result only. */
  lemma {:induction false} InstallSettlesEveryItem(apps: seq<Pick>, attempts: seq<Attempt>, dv: string)
    requires |attempts| == |apps| && Distinct(Originals(apps))
    requires forall i :: 0 <= i < |attempts| ==> attempts[i].info == Info(false) && attempts[i].call.Resolved?
    ensures !InstallBatch(apps, attempts, Some(dv)).aborted
    ensures Keys(InstallBatch(apps, attempts, Some(dv)).statuses) == Originals(apps)
    ensures forall i :: 0 <= i < |apps| ==>
      InstallBatch(apps, attempts, Some(dv)).statuses[i] ==
        (apps[i].original, Settled(apps[i], attempts[i].call.truthy, dv))
  {
    if apps != [] {
      var n := |apps| - 1;
      OriginalsLast(apps);
      DistinctInit(Originals(apps[..n]), apps[n].original);
      InstallSettlesEveryItem(apps[..n], attempts[..n], dv);
      var d := InstallBatch(apps[..n], attempts[..n], Some(dv)).statuses;
      var k := apps[n].original;
      var v := Settled(apps[n], attempts[n].call.truthy, dv);
      InstallLastStep(apps, attempts, dv);
      PutNew(d, k, v);
      var r := InstallBatch(apps, attempts, Some(dv)).statuses;
      assert r == d + [(k, v)];
      assert Keys(r) == Keys(d) + [k];
      forall i | 0 <= i < |apps| ensures r[i] == (apps[i].original, Settled(apps[i], attempts[i].call.truthy, dv)) {
        if i < n {
          assert r[i] == d[i] && apps[..n][i] == apps[i] && attempts[..n][i] == attempts[i];
        }
      }
    }
  }

  lemma {:induction false} CountSettled(r: Dict<Entry>, apps: seq<Pick>, attempts: seq<Attempt>, dv: string)
    requires |r| == |apps| == |attempts|
    requires forall i :: 0 <= i < |apps| ==>
      attempts[i].call.Resolved? && r[i].1 == Settled(apps[i], attempts[i].call.truthy, dv)
    ensures CountValues(r, IsInstalled) == Batch.TruthyCount(seq(|attempts|, i requires 0 <= i < |attempts| => attempts[i].call))
  {
    var calls := seq(|attempts|, i requires 0 <= i < |attempts| => attempts[i].call);
    if r != [] {
      CountSettled(r[1..], apps[1..], attempts[1..], dv);
      assert calls[1..] == seq(|attempts[1..]|, i requires 0 <= i < |attempts[1..]| => attempts[1..][i].call);
    }
  }

  /** Whether the last install call made for the name `k` resolved truthy. */
  predicate LastOk(apps: seq<Pick>, attempts: seq<Attempt>, k: string)
    requires |attempts| == |apps|
  {
    if apps == [] then false
    else
      var n := |apps| - 1;
      if apps[n].original == k then attempts[n].call == Batch.Resolved(true)
      else LastOk(apps[..n], attempts[..n], k)
  }

  /** The names whose last install call resolved truthy. */
  ghost function LastOkNames(apps: seq<Pick>, attempts: seq<Attempt>): set<string>
    requires |attempts| == |apps|
  {
    set k | k in Originals(apps) && LastOk(apps, attempts, k)
  }

  /** When nothing throws, whatever the names: the dictionary holds each
      catalog name once, in order of first selection, and the entry the
      last install of that name left: installed with its access URL, or
      the bare failure string. */
  lemma InstallLastWrite(apps: seq<Pick>, attempts: seq<Attempt>, dv: string)
    requires |attempts| == |apps|
    requires forall i :: 0 <= i < |attempts| ==> attempts[i].info == Info(false) && attempts[i].call.Resolved?
    ensures !InstallBatch(apps, attempts, Some(dv)).aborted
    ensures Keys(InstallBatch(apps, attempts, Some(dv)).statuses) == Dedup(Originals(apps))
    ensures forall k :: k in Originals(apps) ==>
      Get(InstallBatch(apps, attempts, Some(dv)).statuses, k) ==
        Some(if LastOk(apps, attempts, k) then Status(Installed, AccessUrl(k, dv)) else Bare(InstallFailed))
  {
    InstallNoAbort(apps, attempts, dv);
    InstallKeys(apps, attempts, dv);
    forall k | k in Originals(apps)
      ensures Get(InstallBatch(apps, attempts, Some(dv)).statuses, k) ==
        Some(if LastOk(apps, attempts, k) then Status(Installed, AccessUrl(k, dv)) else Bare(InstallFailed))
    {
      InstallGet(apps, attempts, dv, k);
    }
  }

  lemma {:induction false} InstallNoAbort(apps: seq<Pick>, attempts: seq<Attempt>, dv: string)
    requires |attempts| == |apps|
    requires forall i :: 0 <= i < |attempts| ==> attempts[i].info == Info(false) && attempts[i].call.Resolved?
    ensures !InstallBatch(apps, attempts, Some(dv)).aborted
  {
    if apps != [] {
      var n := |apps| - 1;
      InstallNoAbort(apps[..n], attempts[..n], dv);
    }
  }

  /** One install that resolves, after a batch that did not abort: the
      app's "Installing..." entry is overwritten by its settled one. */
  lemma {:induction false} InstallLastStep(apps: seq<Pick>, attempts: seq<Attempt>, dv: string)
    requires |attempts| == |apps| && apps != []
    requires forall i :: 0 <= i < |attempts| ==> attempts[i].info == Info(false) && attempts[i].call.Resolved?
    ensures var n := |apps| - 1;
      InstallBatch(apps, attempts, Some(dv)) ==
        InstallRun(Put(InstallBatch(apps[..n], attempts[..n], Some(dv)).statuses, apps[n].original,
                       Settled(apps[n], attempts[n].call.truthy, dv)), false)
  {
    var n := |apps| - 1;
    InstallNoAbort(apps[..n], attempts[..n], dv);
    PutPut(InstallBatch(apps[..n], attempts[..n], Some(dv)).statuses, apps[n].original,
           Status(Installing, ""), Settled(apps[n], attempts[n].call.truthy, dv));
  }

  lemma {:induction false} InstallKeys(apps: seq<Pick>, attempts: seq<Attempt>, dv: string)
    requires |attempts| == |apps|
    requires forall i :: 0 <= i < |attempts| ==> attempts[i].info == Info(false) && attempts[i].call.Resolved?
    ensures Keys(InstallBatch(apps, attempts, Some(dv)).statuses) == Dedup(Originals(apps))
  {
    if apps != [] {
      var n := |apps| - 1;
      InstallKeys(apps[..n], attempts[..n], dv);
      InstallLastStep(apps, attempts, dv);
      PutSpec(InstallBatch(apps[..n], attempts[..n], Some(dv)).statuses, apps[n].original,
              Settled(apps[n], attempts[n].call.truthy, dv));
      OriginalsLast(apps);
    }
  }

  lemma {:induction false} InstallGet(apps: seq<Pick>, attempts: seq<Attempt>, dv: string, k: string)
    requires |attempts| == |apps| && k in Originals(apps)
    requires forall i :: 0 <= i < |attempts| ==> attempts[i].info == Info(false) && attempts[i].call.Resolved?
    ensures Get(InstallBatch(apps, attempts, Some(dv)).statuses, k) ==
      Some(if LastOk(apps, attempts, k) then Status(Installed, AccessUrl(k, dv)) else Bare(InstallFailed))
  {
    var n := |apps| - 1;
    var pre, apre, x := apps[..n], attempts[..n], apps[n].original;
    var d := InstallBatch(pre, apre, Some(dv)).statuses;
    var v := Settled(apps[n], attempts[n].call.truthy, dv);
    InstallLastStep(apps, attempts, dv);
    assert InstallBatch(apps, attempts, Some(dv)).statuses == Put(d, x, v);
    PutGet(d, x, v, k);
    if x == k {
      assert LastOk(apps, attempts, k) == attempts[n].call.truthy;
    } else {
      assert LastOk(apps, attempts, k) == LastOk(pre, apre, k);
      OriginalsLast(apps);
      InInit(Originals(apps), k);
      InstallGet(pre, apre, dv, k);
    }
  }

  lemma InstallKeysDistinct(apps: seq<Pick>, attempts: seq<Attempt>, dv: string)
    requires |attempts| == |apps|
    requires forall i :: 0 <= i < |attempts| ==> attempts[i].info == Info(false) && attempts[i].call.Resolved?
    ensures Distinct(Keys(InstallBatch(apps, attempts, Some(dv)).statuses))
  {
    InstallLastWrite(apps, attempts, dv);
  }

  lemma InstalledKey(apps: seq<Pick>, attempts: seq<Attempt>, dv: string, k: string)
    requires |attempts| == |apps|
    requires forall i :: 0 <= i < |attempts| ==> attempts[i].info == Info(false) && attempts[i].call.Resolved?
    ensures k in KeysWhere(InstallBatch(apps, attempts, Some(dv)).statuses, IsInstalled) <==>
      k in Originals(apps) && LastOk(apps, attempts, k)
  {
    var st := InstallBatch(apps, attempts, Some(dv)).statuses;
    InstallLastWrite(apps, attempts, dv);
    assert k in Keys(st) <==> k in Originals(apps);
  }

  lemma InstallQueuedAsSet(apps: seq<Pick>, attempts: seq<Attempt>, dv: string)
    requires |attempts| == |apps|
    requires forall i :: 0 <= i < |attempts| ==> attempts[i].info == Info(false) && attempts[i].call.Resolved?
    ensures |InstallBatch(apps, attempts, Some(dv)).statuses| == |set k | k in Originals(apps)|
  {
    var st := InstallBatch(apps, attempts, Some(dv)).statuses;
    InstallLastWrite(apps, attempts, dv);
    DistinctSize(st);
    assert (set k | k in Keys(st)) == (set k | k in Originals(apps));
  }

  lemma InstalledAsSet(apps: seq<Pick>, attempts: seq<Attempt>, dv: string)
    requires |attempts| == |apps|
    requires forall i :: 0 <= i < |attempts| ==> attempts[i].info == Info(false) && attempts[i].call.Resolved?
    ensures CountValues(InstallBatch(apps, attempts, Some(dv)).statuses, IsInstalled) == |LastOkNames(apps, attempts)|
  {
    var st := InstallBatch(apps, attempts, Some(dv)).statuses;
    var want := LastOkNames(apps, attempts);
    InstallKeysDistinct(apps, attempts, dv);
    forall k ensures k in KeysWhere(st, IsInstalled) <==> k in want {
      InstalledKey(apps, attempts, dv, k);
    }
    CountIs(st, IsInstalled, want);
  }

  /** The count line after a batch where nothing throws: the number of
      distinct names queued, and as installed the number of names whose
      last install call resolved truthy; a failed install is never counted,
      because its entry is a bare string without a status. For distinct
      names, every app is queued and exactly the truthy calls count. */
  lemma InstallCount(apps: seq<Pick>, attempts: seq<Attempt>, dv: string)
    requires |attempts| == |apps|
    requires forall i :: 0 <= i < |attempts| ==> attempts[i].info == Info(false) && attempts[i].call.Resolved?
    ensures InstallTally(InstallBatch(apps, attempts, Some(dv)).statuses) ==
      (|set k | k in Originals(apps)|, |LastOkNames(apps, attempts)|)
    ensures Distinct(Originals(apps)) ==>
      InstallTally(InstallBatch(apps, attempts, Some(dv)).statuses) ==
        (|apps|, Batch.TruthyCount(seq(|attempts|, i requires 0 <= i < |attempts| => attempts[i].call)))
  {
    InstallQueuedAsSet(apps, attempts, dv);
    InstalledAsSet(apps, attempts, dv);
    if Distinct(Originals(apps)) {
      InstallSettlesEveryItem(apps, attempts, dv);
      CountSettled(InstallBatch(apps, attempts, Some(dv)).statuses, apps, attempts, dv);
    }
  }

  /** An app that needs extra answers ends the batch before its entry is
      written, because the message printer it calls is not defined. */
  lemma UserPromptsEndBatch(apps: seq<Pick>, attempts: seq<Attempt>, domain: Option<string>, j: nat)
    requires |attempts| == |apps| && j < |apps|
    requires !InstallBatch(apps[..j], attempts[..j], domain).aborted
    requires attempts[j].info == Info(true)
    ensures InstallBatch(apps, attempts, domain) == InstallRun(InstallBatch(apps[..j], attempts[..j], domain).statuses, true)
  {
    assert apps[..j + 1][..j] == apps[..j] && attempts[..j + 1][..j] == attempts[..j];
    InstallAbortSticks(apps, attempts, domain, j + 1);
  }

  /** An offered page action from a page within range stays within range. */
  lemma PageStepInRange(page: int, view: CatalogPage, installedNames: seq<string>, selection: seq<Pick>, a: Answer<Pick>)
    requires page >= 1 && (a.PageNext? || a.PageBack?)
    requires Offered(a, Choices(page, view, installedNames, selection))
    ensures 1 <= Navigate(page, a)
    ensures page <= view.totalPages ==> Navigate(page, a) <= view.totalPages
  {
    ChoicesOffer(page, view, installedNames, selection, a);
  }

  // ---------------------------------------------------------------------
  // The screen itself (lines 183-359)

  class InstallScreen {
    var page: int
    var selection: seq<Pick>
    var loop: bool
    var halt: Halt

    ghost predicate Valid()
      reads this
    {
      page >= 1 && Unique(KeysOf(selection, PickId))
    }

    constructor ()
      ensures Valid() && page == 1 && selection == [] && loop && halt == Running
    {
      page, selection, loop, halt := 1, [], true, Running;
    }

    /** One pass of the do-while body: the screen shows `Choices` for the
        fetched catalog page and the installed names, and the operator's
        answer is handled. For Install, `attempts` gives what each selected
        app's remote calls do, `domain` the stored domain setting and
        `installMore` the answer to "install more?". */
    method Step(view: CatalogPage, installedNames: seq<string>, a: Answer<Pick>,
                domain: Option<string>, attempts: seq<Attempt>, installMore: bool)
        returns (report: Option<InstallRun>)
      requires Valid() && loop && halt == Running
      requires Offered(a, Choices(page, view, installedNames, selection))
      requires a.Confirm? ==> |attempts| == |selection|
      modifies this
      ensures Valid()
      ensures !a.Confirm? ==> report == None
      ensures a.Chose? ==>
        page == old(page) && loop && halt == Running && selection == Select(old(selection), a.value, installedNames)
      ensures a.PageNext? ==> page == old(page) + 1 && selection == old(selection) && loop && halt == Running
      ensures a.PageBack? ==> page == old(page) - 1 && selection == old(selection) && loop && halt == Running
      ensures (a.PageNext? || a.PageBack?) && old(page) <= view.totalPages ==> 1 <= page <= view.totalPages
      ensures a.Back? ==> page == old(page) && selection == old(selection) && !loop && halt == Running
      ensures a.Exit? ==> page == old(page) && selection == old(selection) && halt == Exited
      ensures a.Confirm? ==>
        page == old(page) && report == Some(InstallBatch(old(selection), attempts, domain))
      ensures a.Confirm? && report.value.aborted ==> halt == Threw && selection == old(selection)
      ensures a.Confirm? && !report.value.aborted ==>
        halt == Running && loop == installMore && selection == (if installMore then [] else old(selection))
    {
      report := None;
      match a {
        case Back =>
          loop := false;
        case Exit =>
          halt := Exited;
        case PageNext =>
          PageStepInRange(page, view, installedNames, selection, a);
          Turn(a);
        case PageBack =>
          PageStepInRange(page, view, installedNames, selection, a);
          Turn(a);
        case Confirm =>
          var run := Install(attempts, domain, installMore);
          report := Some(run);
        case Chose(p) =>
          Choose(p, installedNames);
      }
    }

    /** "Previous Page" and "Next Page", taken only where they land on a
        page at or after the first (`PageStepInRange`). */
    method Turn(a: Answer<Pick>)
      requires Valid() && (a.PageNext? || a.PageBack?) && 1 <= Navigate(page, a)
      modifies this
      ensures Valid()
      ensures page == Navigate(old(page), a)
      ensures selection == old(selection) && loop == old(loop) && halt == old(halt)
    {
      page := Navigate(page, a);
    }

    /** A picked catalog item: the selection toggles its id unless its
        name is installed, and its ids stay unique. */
    method Choose(p: Pick, installedNames: seq<string>)
      requires Valid()
      modifies this
      ensures Valid()
      ensures selection == Select(old(selection), p, installedNames)
      ensures page == old(page) && loop == old(loop) && halt == old(halt)
    {
      SelectSpec(selection, p, installedNames, p.id);
      selection := Select(selection, p, installedNames);
    }

    /** Install (lines 269-346): the batch over the selection in order,
        then, unless a call threw, "install more?": yes empties the
        selection and keeps the page, no leaves the loop. */
    method Install(attempts: seq<Attempt>, domain: Option<string>, installMore: bool) returns (run: InstallRun)
      requires Valid() && |attempts| == |selection|
      modifies this
      ensures Valid()
      ensures run == InstallBatch(old(selection), attempts, domain)
      ensures page == old(page)
      ensures run.aborted ==> halt == Threw && selection == old(selection)
      ensures !run.aborted ==>
        halt == old(halt) && loop == installMore && selection == (if installMore then [] else old(selection))
    {
      loop := false;
      var statuses, aborted := RunInstallBatch(selection, attempts, domain);
      run := InstallRun(statuses, aborted);
      if aborted {
        halt := Threw;
      } else if installMore {
        selection := [];
        loop := true;
      }
    }
  }

  /** The two catalog pages and the picks of the example below. */
  const WikiPage := CatalogPage([CatalogApp("wiki", "1"), CatalogApp("blog", "2")], 2, 3)
  const ChatPage := CatalogPage([CatalogApp("chat", "3")], 2, 3)
  const WikiPick := Pick(Label("wiki", false, false), "1", "wiki")
  const ChatPick := Pick(Label("chat", false, false), "3", "chat")

  /** "wiki" is on offer on page 1 with nothing selected. */
  lemma WikiOffered()
    ensures Offered(Chose(WikiPick), Choices(1, WikiPage, [], []))
  {
    ItemOffered(1, WikiPage, [], [], 0);
    assert ItemChoice(WikiPage.results[0], [], []).value == Chose(WikiPick);
  }

  /** "chat" is on offer on page 2 once "wiki" is selected. */
  lemma ChatOffered()
    ensures Offered(Chose(ChatPick), Choices(2, ChatPage, [], [WikiPick]))
  {
    ItemOffered(2, ChatPage, [], [WikiPick], 0);
    assert KeysOf([WikiPick], PickId) == ["1"];
    assert ItemChoice(ChatPage.results[0], [], [WikiPick]).value == Chose(ChatPick);
  }

  /** Select on page 1, move to page 2 and select there: the selection made
      on page 1 survives the page move, and the selection keeps the order
      in which the items were chosen. */
  method TwoPageSelection() returns (selection: seq<Pick>, page: int)
    ensures selection == [WikiPick, ChatPick] && page == 2
  {
    var screen := new InstallScreen();
    var none := Options.None;
    WikiOffered();
    SelectSpec([], WikiPick, [], "1");
    var r := screen.Step(WikiPage, [], Chose(WikiPick), none, [], false);
    assert screen.selection == [WikiPick] && screen.page == 1;
    ChoicesOffer(1, WikiPage, [], [WikiPick], PageNext);
    r := screen.Step(WikiPage, [], PageNext, none, [], false);
    assert screen.page == 2;
    ChatOffered();
    SelectSpec([WikiPick], ChatPick, [], "3");
    r := screen.Step(ChatPage, [], Chose(ChatPick), none, [], false);
    selection, page := screen.selection, screen.page;
  }

  /** Installing the two apps selected above, both succeeding: the batch
      visits "wiki" then "chat" and the count line reads 2 queued, 2
      installed. */
  lemma TwoAppsInstalled(dv: string)
    ensures var apps := [Pick(Label("wiki", false, false), "1", "wiki"), Pick(Label("chat", false, false), "3", "chat")];
      var run := InstallBatch(apps, [Attempt(Info(false), Batch.Resolved(true)), Attempt(Info(false), Batch.Resolved(true))], Some(dv));
      Keys(run.statuses) == ["wiki", "chat"] && InstallTally(run.statuses) == (2, 2)
  {
    var apps := [Pick(Label("wiki", false, false), "1", "wiki"), Pick(Label("chat", false, false), "3", "chat")];
    var attempts := [Attempt(Info(false), Batch.Resolved(true)), Attempt(Info(false), Batch.Resolved(true))];
    assert Originals(apps) == ["wiki", "chat"];
    InstallSettlesEveryItem(apps, attempts, dv);
    CountSettled(InstallBatch(apps, attempts, Some(dv)).statuses, apps, attempts, dv);
    var calls := seq(|attempts|, i requires 0 <= i < |attempts| => attempts[i].call);
    assert calls == [Batch.Resolved(true), Batch.Resolved(true)];
    assert calls[1..] == [Batch.Resolved(true)] && calls[1..][1..] == [];
  }
}
