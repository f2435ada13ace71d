/** Sheet inventory: the clamp `SheetInventory.save` applies and the counter
    actions of the inventory page. Times are timestamps supplied by the caller. */
module Inventory {
  import opened Wrappers
  import opened Text
  import opened Numerals

  /** A stock record. The quantity column is never null in storage, but the
      save guards against an unset one, so it is optional here. */
  datatype Item = Item(quantity: Option<int>, isFinished: bool, finishedAt: Option<int>, updatedAt: int)

  /** `SheetInventory.save` at time `now`: a missing or negative quantity
      becomes 0; an item marked finished keeps its finish time or is stamped
      now; an item not finished has none. */
  function SaveItem(v: Item, now: int): (r: Item)
    ensures r.quantity.Some? && r.quantity.value >= 0
    ensures v.quantity.Some? && v.quantity.value >= 0 ==> r.quantity == v.quantity
    ensures v.quantity.None? || v.quantity.value < 0 ==> r.quantity == Some(0)
    ensures r.isFinished == v.isFinished
    ensures r.finishedAt.None? <==> !r.isFinished
    ensures v.isFinished && v.finishedAt.Some? ==> r.finishedAt == v.finishedAt
    ensures v.isFinished && v.finishedAt.None? ==> r.finishedAt == Some(now)
    ensures r.updatedAt == now
  {
    var q := if v.quantity.None? || v.quantity.value < 0 then 0 else v.quantity.value;
    var at := if !v.isFinished then None else if v.finishedAt.None? then Some(now) else v.finishedAt;
    Item(Some(q), v.isFinished, at, now)
  }

  /** Saving a saved item again changes only its update time. */
  lemma SaveItemIdempotent(v: Item, t1: int, t2: int)
    ensures SaveItem(SaveItem(v, t1), t2) == SaveItem(v, t1).(updatedAt := t2)
  {
  }

  /** The quantity the save stores for `q`: negative values become 0. */
  function AtLeastZero(q: int): (r: nat)
    ensures q >= 0 ==> r == q
    ensures q < 0 ==> r == 0
  {
    if q < 0 then 0 else q
  }

  datatype ActionError =
    | UnsetQuantity     // `+=`/`-=` on a missing quantity raises
    | InvalidItemId     // an item id that is not an integer fails the lookup
    | NoSuchItem        // no item with that id: not found

  /** `int(request.POST.get("quantity") or 0)`: a missing or blank value is 0,
      otherwise the integer the text spells, if it spells one. */
  function QuantityParam(text: Option<string>): (r: Option<int>)
    ensures text.None? || text.value == "" ==> r == Some(0)
    ensures text.Some? && text.value != "" ==> r == ParseInt(text.value)
  {
    if text.None? || text.value == "" then Some(0) else ParseInt(text.value)
  }

  /** The actions of the inventory page. */
  datatype Action = Inc | Dec | SetTo | Finish | Unfinish | Other

  function ActionName(a: Action): string {
    match a
    case Inc => "inc"
    case Dec => "dec"
    case SetTo => "set"
    case Finish => "finish"
    case Unfinish => "unfinish"
    case Other => ""
  }

  /** `(request.POST.get("action") or "").strip()`, read as an action; any
      text other than the five names is `Other`. */
  function ParseAction(text: Option<string>): (a: Action)
    ensures a != Other ==> Strip(text.GetOr("")) == ActionName(a)
    ensures a == Other ==> Strip(text.GetOr("")) !in {"inc", "dec", "set", "finish", "unfinish"}
  {
    ActionOf(Strip(text.GetOr("")))
  }

  /** The action a stripped text names. */
  function ActionOf(t: string): (a: Action)
    ensures a != Other ==> t == ActionName(a)
    ensures a == Other ==> t !in {"inc", "dec", "set", "finish", "unfinish"}
  {
    if t == "inc" then Inc
    else if t == "dec" then Dec
    else if t == "set" then SetTo
    else if t == "finish" then Finish
    else if t == "unfinish" then Unfinish
    else Other
  }

  /** Each action's name, as posted, reads back as that action. */
  lemma ParseActionName(a: Action)
    requires a != Other
    ensures ParseAction(Some(ActionName(a))) == a
  {
    var n := ActionName(a);
    NameUnpadded(a);
    assert Strip(n) == n;
    assert ActionOf(n) == a;
  }

  lemma NameUnpadded(a: Action)
    requires a != Other
    ensures var n := ActionName(a); |n| > 0 && !IsSpace(n[0]) && !IsSpace(n[|n| - 1])
  {
  }

  /** One action of the inventory page applied to an item and saved at `now`:
      `inc` adds one, `dec` takes one away, `set` stores the given quantity
      (unchanged when it does not parse), `finish` and `unfinish` set the flag;
      any other action changes nothing but still saves. */
  function ApplyAction(v: Item, a: Action, quantity: Option<string>, now: int)
    : (r: Result<Item, ActionError>)
    ensures r.Err? <==> (a == Inc || a == Dec) && v.quantity.None?
    ensures r.Ok? ==> r.value.quantity.Some? && r.value.quantity.value >= 0
    ensures r.Ok? && a != Finish && a != Unfinish ==> r.value.isFinished == v.isFinished
    ensures r.Ok? && a == Finish ==> r.value.isFinished
    ensures r.Ok? && a == Unfinish ==> !r.value.isFinished
    // the counter actions change the quantity and nothing a plain save would not
    ensures r.Ok? && a in {Inc, Dec, SetTo} ==> r.value == SaveItem(v, now).(quantity := r.value.quantity)
    ensures a == Inc && v.quantity.Some? ==>
              r.Ok? && r.value.quantity == Some(AtLeastZero(v.quantity.value + 1))
    ensures a == Dec && v.quantity.Some? ==>
              r.Ok? && r.value.quantity == Some(AtLeastZero(v.quantity.value - 1))
    ensures a == SetTo && QuantityParam(quantity).Some? ==>
              r.Ok? && r.value.quantity == Some(AtLeastZero(QuantityParam(quantity).value))
    ensures a == SetTo && QuantityParam(quantity).None? ==> r == Ok(SaveItem(v, now))
    // finishing keeps an earlier finish time, else stamps now; unfinishing clears it
    ensures a == Finish ==>
              r == Ok(SaveItem(v, now).(isFinished := true,
                                        finishedAt := if v.finishedAt.Some? then v.finishedAt else Some(now)))
    ensures a == Unfinish ==> r == Ok(SaveItem(v, now).(isFinished := false, finishedAt := None))
    ensures a == Other ==> r == Ok(SaveItem(v, now))
  {
    match a
    case Inc =>
      if v.quantity.None? then Err(UnsetQuantity)
      else Ok(SaveItem(v.(quantity := Some(v.quantity.value + 1)), now))
    case Dec =>
      if v.quantity.None? then Err(UnsetQuantity)
      else Ok(SaveItem(v.(quantity := Some(v.quantity.value - 1)), now))
    case SetTo =>
      (match QuantityParam(quantity)
       case Some(k) => Ok(SaveItem(v.(quantity := Some(k)), now))
       case None => Ok(SaveItem(v, now)))
    case Finish => Ok(SaveItem(v.(isFinished := true), now))
    case Unfinish => Ok(SaveItem(v.(isFinished := false), now))
    case Other => Ok(SaveItem(v, now))
  }

  /** `inc` then `dec` returns a stored quantity to where it was. */
  lemma IncThenDec(v: Item, t1: int, t2: int)
    requires v.quantity.Some? && v.quantity.value >= 0
    ensures var up := ApplyAction(v, Inc, None, t1);
            up.Ok? && ApplyAction(up.value, Dec, None, t2).value.quantity == v.quantity
  {
  }

  /** `dec` on an empty stock leaves it at zero: the stock never goes below
      zero. */
  lemma DecAtZero(v: Item, now: int)
    requires v.quantity == Some(0)
    ensures ApplyAction(v, Dec, None, now) == Ok(SaveItem(v, now))
  {
  }

  /** `set` with a blank quantity empties the stock, with a negative number
      clamps to zero, and with text that is not a number keeps the stock as
      it was. */
  lemma SetQuantity(v: Item, text: string, now: int)
    requires v.quantity.Some? && v.quantity.value >= 0
    ensures text == "" ==> ApplyAction(v, SetTo, Some(text), now).value.quantity == Some(0)
    ensures ParseInt(text).Some? && ParseInt(text).value < 0 ==>
              ApplyAction(v, SetTo, Some(text), now).value.quantity == Some(0)
    ensures text != "" && ParseInt(text).None? ==>
              ApplyAction(v, SetTo, Some(text), now).value.quantity == v.quantity
    ensures ParseInt(text).Some? && ParseInt(text).value >= 0 ==>
              ApplyAction(v, SetTo, Some(text), now).value.quantity == ParseInt(text)
  {
  }

  /** Finishing a stored unfinished item (which the save left without a finish
      time) stamps it once: finishing it again keeps the first time, and
      unfinishing clears it. */
  lemma FinishStampsOnce(v: Item, t1: int, t2: int)
    requires !v.isFinished && v.finishedAt.None?
    ensures var f := ApplyAction(v, Finish, None, t1);
            f.Ok? && f.value.finishedAt == Some(t1)
            && ApplyAction(f.value, Finish, None, t2).value.finishedAt == Some(t1)
            && ApplyAction(f.value, Unfinish, None, t2).value.finishedAt.None?
  {
  }

  /** The inventory page's POST: a missing or blank item id does nothing;
      otherwise the item is looked up by id and the action applied to it and
      stored. Every other item is untouched. */
  function InventoryAction(items: map<int, Item>, itemId: Option<string>, action: Option<string>,
                           quantity: Option<string>, now: int): (r: Result<map<int, Item>, ActionError>)
    ensures itemId.None? || itemId.value == "" ==> r == Ok(items)
    ensures r.Ok? ==> items.Keys == r.value.Keys
    ensures r.Ok? ==> forall k :: k in items && Some(k) != ParseInt(itemId.GetOr("")) ==> r.value[k] == items[k]
    ensures r.Ok? && r.value != items ==>
              exists k :: k in items && Some(k) == ParseInt(itemId.GetOr("")) && r.value[k] != items[k]
                          && ApplyAction(items[k], ParseAction(action), quantity, now) == Ok(r.value[k])
    ensures itemId.Some? && itemId.value != "" && ParseInt(itemId.value).None? ==> r == Err(InvalidItemId)
    ensures itemId.Some? && ParseInt(itemId.value).Some? && ParseInt(itemId.value).value !in items ==>
              r == Err(NoSuchItem)
    ensures itemId.Some? && ParseInt(itemId.value).Some? && ParseInt(itemId.value).value in items ==>
              var k := ParseInt(itemId.value).value;
              var a := ApplyAction(items[k], ParseAction(action), quantity, now);
              (r.Ok? <==> a.Ok?) && (a.Ok? ==> r.value == items[k := a.value]) && (a.Err? ==> r == Err(a.error))
  {
    if itemId.None? || itemId.value == "" then Ok(items)
    else match ParseInt(itemId.value)
      case None => Err(InvalidItemId)
      case Some(id) =>
        if id !in items then Err(NoSuchItem)
        else match ApplyAction(items[id], ParseAction(action), quantity, now)
          case Err(e) => Err(e)
          case Ok(v) => Ok(items[id := v])
  }

  /** `inc` on an item with a stored quantity raises exactly that item's
      quantity by one (before the clamp) and leaves every other item alone. */
  lemma IncrementStored(items: map<int, Item>, id: nat, now: int)
    requires id in items && items[id].quantity.Some? && items[id].quantity.value >= 0
    ensures var r := InventoryAction(items, Some(NatToString(id)), Some("inc"), None, now);
            r.Ok? && r.value.Keys == items.Keys
            && r.value[id].quantity == Some(items[id].quantity.value + 1)
            && forall k :: k in items && k != id ==> r.value[k] == items[k]
  {
    ParseIntOfDigits(NatToString(id));
    ParseActionName(Inc);
    var a := ApplyAction(items[id], Inc, None, now);
    assert a.Ok? && a.value.quantity == Some(items[id].quantity.value + 1);
    assert InventoryAction(items, Some(NatToString(id)), Some("inc"), None, now) == Ok(items[id := a.value]);
  }
}
