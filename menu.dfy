/**
  The list prompts of the install and delete screens: a choice is either an
  `inquirer.Separator` or an entry with a display name and a value, and the
  value the operator picks is an item of the current page or one of the
  fixed actions.
*/
module Menu {

  /** A picked value: an item, or `pageBack`, `pageNext`, the screen's
      confirming action (`install` / `delete`), `back` or `exit`. */
  datatype Answer<P> = Chose(value: P) | PageBack | PageNext | Confirm | Back | Exit

  datatype Choice<P> = Separator | Item(name: string, value: Answer<P>)

  /** How a screen's loop ends besides `loop = false`: `process.exit()`, or
      an exception thrown out of it. */
  datatype Halt = Running | Exited | Threw

  /** A list prompt returns only the value of one of its non-separator choices. */
  predicate Offered<P(==)>(a: Answer<P>, choices: seq<Choice<P>>)
  {
    exists c :: c in choices && c.Item? && c.value == a
  }

  /** `displayPages`: page controls below the items, only when there is more
      than one page. */
  function PageControls<P(==)>(page: int, totalPages: int): (r: seq<Choice<P>>)
    ensures totalPages <= 1 ==> r == []
    ensures totalPages > 1 ==> |r| > 0 && r[0] == Separator
    ensures Offered(PageBack, r) <==> totalPages > 1 && page > 1
    ensures Offered(PageNext, r) <==> totalPages > 1 && page < totalPages
    ensures forall c :: c in r && c.Item? ==> c.value.PageBack? || c.value.PageNext?
  {
    if totalPages > 1 then
      [Separator]
      + (if page > 1 then [Item("Page <", PageBack)] else [])
      + (if page < totalPages then [Item("Page >", PageNext)] else [])
    else []
  }

  /** `actionItems`: the confirming action only when something is selected,
      then always Back and Exit, in that order. */
  function ActionItems<P(==)>(selected: nat, confirmLabel: string): (r: seq<Choice<P>>)
    ensures Offered(Confirm, r) <==> selected > 0
    ensures |r| >= 2 && r[|r| - 2..] == [Item("Back", Back), Item("Exit", Exit)]
    ensures forall c :: c in r ==> c.Item? && !c.value.Chose? && !c.value.PageBack? && !c.value.PageNext?
  {
    (if selected > 0 then [Item(confirmLabel, Confirm)] else [])
    + [Item("Back", Back), Item("Exit", Exit)]
  }

  /** The page number after a page action. */
  function Navigate<P>(page: int, a: Answer<P>): int
  {
    match a
    case PageNext => page + 1
    case PageBack => page - 1
    case _ => page
  }

  /** Page actions are offered only where they keep the page within
      1..totalPages. */
  lemma NavigationStaysInRange<P>(page: int, totalPages: int, a: Answer<P>)
    requires 1 <= page <= totalPages
    requires a.PageNext? || a.PageBack?
    requires Offered(a, PageControls<P>(page, totalPages))
    ensures 1 <= Navigate(page, a) <= totalPages
  {
  }

  lemma OfferedAppend<P>(a: Answer<P>, x: seq<Choice<P>>, y: seq<Choice<P>>)
    ensures Offered(a, x + y) <==> Offered(a, x) || Offered(a, y)
  {
    if Offered(a, x + y) {
      var c :| c in x + y && c.Item? && c.value == a;
      assert c in x || c in y;
    }
    if Offered(a, x) {
      var c :| c in x && c.Item? && c.value == a;
      assert c in x + y;
    }
    if Offered(a, y) {
      var c :| c in y && c.Item? && c.value == a;
      assert c in x + y;
    }
  }

  /** A prompt built as items, page controls, a separator and the action
      items offers each kind of answer exactly where its part does. */
  lemma OfferedLayout<P>(a: Answer<P>, items: seq<Choice<P>>, page: int, totalPages: int, selected: nat, confirmLabel: string)
    requires forall c :: c in items && c.Item? ==> c.value.Chose?
    ensures a.Chose? ==> (Offered(a, items + PageControls(page, totalPages) + [Separator] + ActionItems(selected, confirmLabel)) <==> Offered(a, items))
    ensures !a.Chose? ==> !Offered(a, items)
    ensures a.PageNext? || a.PageBack? ==>
      (Offered(a, items + PageControls(page, totalPages) + [Separator] + ActionItems(selected, confirmLabel)) <==> Offered(a, PageControls<P>(page, totalPages)))
    ensures !a.Chose? && !a.PageNext? && !a.PageBack? ==>
      (Offered(a, items + PageControls(page, totalPages) + [Separator] + ActionItems(selected, confirmLabel)) <==> Offered(a, ActionItems<P>(selected, confirmLabel)))
  {
    var controls := PageControls<P>(page, totalPages);
    var actions := ActionItems<P>(selected, confirmLabel);
    OfferedAppend(a, items + controls + [Separator], actions);
    OfferedAppend(a, items + controls, [Separator]);
    OfferedAppend(a, items, controls);
    assert !Offered(a, [Separator]);
  }

  /** What such a prompt offers, answer by answer: a pick exactly where the
      items offer it, "Page >" and "Page <" exactly where `displayPages`
      shows them, the confirming action exactly for a non-empty selection,
      and Back and Exit always. */
  lemma LayoutOffers<P>(a: Answer<P>, items: seq<Choice<P>>, page: int, totalPages: int, selected: nat, confirmLabel: string)
    requires forall c :: c in items && c.Item? ==> c.value.Chose?
    ensures var all := items + PageControls(page, totalPages) + [Separator] + ActionItems(selected, confirmLabel);
      && (a.Chose? ==> (Offered(a, all) <==> Offered(a, items)))
      && (a.PageNext? ==> (Offered(a, all) <==> totalPages > 1 && page < totalPages))
      && (a.PageBack? ==> (Offered(a, all) <==> totalPages > 1 && page > 1))
      && (a.Confirm? ==> (Offered(a, all) <==> selected > 0))
      && (a.Back? || a.Exit? ==> Offered(a, all))
  {
    OfferedLayout(a, items, page, totalPages, selected, confirmLabel);
    var actions := ActionItems<P>(selected, confirmLabel);
    if a.Back? || a.Exit? {
      assert actions[|actions| - (if a.Back? then 2 else 1)] in actions;
    }
  }
}
