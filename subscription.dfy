/** The subscription gate (`SubscriptionMiddleware`): a classifier over
    callback data, and the `requires_subscription` flag it leaves for the
    handler. */
module Subscription {
  import opened Wrappers
  import opened Strings
  import opened DateTimes
  import opened Sheets

  /** `FREE_ACTIONS`: callback prefixes that never need a subscription. */
  const FreeActions: seq<string> := [
    "menu", "start", "help", "problems", "contacts", "booking",
    "reviews", "subscribe", "subscribe_info", "pay", "payment_confirm"
  ]

  /** The keywords that mark access to paid materials. */
  const MaterialKeywords: seq<string> := [
    "material", "format_", "materials_theme", "materials_popular", "get_material"
  ]

  predicate HasFreePrefix(callbackData: string)
  {
    exists i :: 0 <= i < |FreeActions| && StartsWith(callbackData, FreeActions[i])
  }

  predicate HasMaterialKeyword(callbackData: string)
  {
    exists i :: 0 <= i < |MaterialKeywords| && Contains(callbackData, MaterialKeywords[i])
  }

  /** What `_requires_subscription` decides: no free prefix, and some keyword. */
  predicate Gated(callbackData: string)
  {
    !HasFreePrefix(callbackData) && HasMaterialKeyword(callbackData)
  }

  /** `_requires_subscription`: the prefix loop with its early return, then
      `any(...)` over the keywords. */
  method RequiresSubscription(callbackData: string) returns (gated: bool)
    ensures gated == Gated(callbackData)
  {
    var i := 0;
    while i < |FreeActions|
      invariant 0 <= i <= |FreeActions|
      invariant forall j :: 0 <= j < i ==> !StartsWith(callbackData, FreeActions[j])
    {
      if StartsWith(callbackData, FreeActions[i]) {
        return false;
      }
      i := i + 1;
    }
    var k := 0;
    while k < |MaterialKeywords|
      invariant 0 <= k <= |MaterialKeywords|
      invariant forall j :: 0 <= j < k ==> !Contains(callbackData, MaterialKeywords[j])
    {
      if Contains(callbackData, MaterialKeywords[k]) {
        return true;
      }
      k := k + 1;
    }
    return false;
  }

  /** A free prefix wins over every keyword. */
  lemma FreePrefixNotGated(callbackData: string, i: nat)
    requires i < |FreeActions| && StartsWith(callbackData, FreeActions[i])
    ensures !Gated(callbackData)
  {
  }

  /** Without a free prefix, any keyword gates. */
  lemma KeywordGated(callbackData: string, k: nat)
    requires !HasFreePrefix(callbackData)
    requires k < |MaterialKeywords| && Contains(callbackData, MaterialKeywords[k])
    ensures Gated(callbackData)
  {
  }

  /** Three of the five keywords contain "material", so only two matter. */
  lemma GatedIffTwoKeywords(callbackData: string)
    ensures Gated(callbackData) <==>
      !HasFreePrefix(callbackData) &&
      (Contains(callbackData, "material") || Contains(callbackData, "format_"))
  {
    assert MaterialKeywords[0] == "material" && MaterialKeywords[1] == "format_";
    ContainsAt("materials_theme", "material", 0);
    ContainsAt("materials_popular", "material", 0);
    assert "get_material"[4..12] == "material";
    ContainsAt("get_material", "material", 4);
    if HasMaterialKeyword(callbackData) {
      var k :| 0 <= k < |MaterialKeywords| && Contains(callbackData, MaterialKeywords[k]);
      if k >= 2 {
        ContainsTransitive(callbackData, MaterialKeywords[k], "material");
      }
    }
  }

  /** `payment_confirm` is free through the earlier `pay` prefix. */
  lemma PaymentConfirmFree()
    ensures StartsWith("payment_confirm", FreeActions[9]) && FreeActions[9] == "pay"
    ensures !Gated("payment_confirm")
  {
    assert StartsWith("payment_confirm", FreeActions[9]);
  }

  /** A free prefix covers paid-looking data: `menu_material` is not gated. */
  lemma FreePrefixOverridesKeyword()
    ensures Contains("menu_material", "material") && !Gated("menu_material")
  {
    assert "menu_material"[5..13] == "material";
    ContainsAt("menu_material", "material", 5);
    assert StartsWith("menu_material", FreeActions[0]);
  }

  /** Data with neither a 'm' nor a 'f' contains no keyword. */
  lemma NoKeywordLetters(callbackData: string)
    requires 'm' !in callbackData && 'f' !in callbackData
    ensures !Gated(callbackData)
  {
    GatedIffTwoKeywords(callbackData);
    if Contains(callbackData, "material") {
      ContainsNecessary(callbackData, "material");
    }
    if Contains(callbackData, "format_") {
      ContainsNecessary(callbackData, "format_");
    }
  }

  /** The laboratory, practice and information buttons are not gated. */
  lemma UngatedExamples()
    ensures !Gated("lab_breath") && !Gated("practice_1") && !Gated("info")
  {
    NoKeywordLetters("lab_breath");
    NoKeywordLetters("practice_1");
    GatedIffTwoKeywords("info");
    if Contains("info", "material") {
      ContainsNecessary("info", "material");
    }
    if Contains("info", "format_") {
      ContainsNecessary("info", "format_");
    }
  }

  /** The first two letters of some free action. */
  predicate FreeOpening(a: char, b: char)
  {
    (a == 'm' && b == 'e') || (a == 's' && b == 't') || (a == 'h' && b == 'e') ||
    (a == 'p' && b == 'r') || (a == 'c' && b == 'o') || (a == 'b' && b == 'o') ||
    (a == 'r' && b == 'e') || (a == 's' && b == 'u') || (a == 'p' && b == 'a')
  }

  /** Data whose first two letters open no free action has no free prefix. */
  lemma NoFreePrefixByLetters(callbackData: string)
    requires |callbackData| >= 2 && !FreeOpening(callbackData[0], callbackData[1])
    ensures !HasFreePrefix(callbackData)
  {
    forall i | 0 <= i < |FreeActions|
      ensures !StartsWith(callbackData, FreeActions[i])
    {
      var a := FreeActions[i];
      assert |a| >= 2 && FreeOpening(a[0], a[1]);
    }
  }

  /** Material buttons without a free prefix are gated. */
  lemma GatedExamples()
    ensures Gated("materials_theme_2") && Gated("format_video") && Gated("get_material_7")
  {
    NoFreePrefixByLetters("materials_theme_2");
    NoFreePrefixByLetters("format_video");
    NoFreePrefixByLetters("get_material_7");
    ContainsAt("materials_theme_2", "material", 0);
    ContainsAt("format_video", "format_", 0);
    assert "get_material_7"[4..12] == "material";
    ContainsAt("get_material_7", "material", 4);
    GatedIffTwoKeywords("materials_theme_2");
    GatedIffTwoKeywords("format_video");
    GatedIffTwoKeywords("get_material_7");
  }

  /** The two kinds of update the middleware sees. */
  datatype Event = Message(userId: int) | CallbackQuery(userId: int, data: string)

  /** The flag the middleware stores: set only for a gated callback whose
      user has no active subscription. */
  predicate RequiresSubscriptionFlag(event: Event, sheet: Option<Table>, now: DateTime)
  {
    event.CallbackQuery? && Gated(event.data) && !PaymentCheck(sheet, event.userId, now)
  }

  /** Whether the middleware consults the table at all. */
  predicate ConsultsStore(event: Event)
  {
    event.CallbackQuery? && Gated(event.data)
  }

  /** Messages are never flagged, whatever the table holds. */
  lemma MessageNeverFlagged(userId: int, sheet: Option<Table>, now: DateTime)
    ensures !RequiresSubscriptionFlag(Message(userId), sheet, now)
    ensures !ConsultsStore(Message(userId))
  {
  }

  /** For a known user the flag is exactly the failed payment check. */
  lemma FlagFollowsPayment(t: Table, userId: int, r: nat, data: string, now: DateTime)
    requires Gated(data) && Locate(t, userId) == Some(r)
    ensures RequiresSubscriptionFlag(CallbackQuery(userId, data), Some(t), now) <==>
      !(PaidFlag(t[r]) && !Expired(t[r], now))
  {
  }

  /** A gated callback is flagged when no sheet is connected or the table
      does not know the user. */
  lemma UnknownUserFlagged(sheet: Option<Table>, userId: int, data: string, now: DateTime)
    requires Gated(data) && (sheet.None? || Locate(sheet.value, userId).None?)
    ensures RequiresSubscriptionFlag(CallbackQuery(userId, data), sheet, now)
  {
  }

  /** The handler's `data` dict, as far as this middleware writes it. */
  class HandlerData {
    var entries: map<string, bool>

    constructor(entries: map<string, bool>)
      ensures this.entries == entries
    {
      this.entries := entries;
    }
  }

  class SubscriptionMiddleware {
    constructor()
    {
    }

    /** `__call__`: stores the flag, consults the table only for gated
        callbacks, and always passes the event on to the handler. */
    method Call(event: Event, data: HandlerData, sheets: GoogleSheetsManager, now: DateTime)
      returns (delivered: Event)
      requires Valid(now)
      modifies data, sheets
      ensures delivered == event
      ensures data.entries == old(data.entries)["requires_subscription" :=
        RequiresSubscriptionFlag(event, old(sheets.sheet), now)]
      ensures sheets.sheet ==
        if ConsultsStore(event) then AfterPaymentCheck(old(sheets.sheet), event.userId, now)
        else old(sheets.sheet)
    {
      var userId := event.userId;
      if event.CallbackQuery? {
        var callbackData := event.data;
        var requiresSubscription := RequiresSubscription(callbackData);
        if requiresSubscription {
          var hasAccess := sheets.CheckPaymentStatus(userId, now);
          if !hasAccess {
            data.entries := data.entries["requires_subscription" := true];
          } else {
            data.entries := data.entries["requires_subscription" := false];
          }
        } else {
          data.entries := data.entries["requires_subscription" := false];
        }
      } else {
        data.entries := data.entries["requires_subscription" := false];
      }
      return event;
    }
  }
}
