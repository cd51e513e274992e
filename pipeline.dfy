/** The middleware chains the dispatcher registers. They are inner
    middlewares, so they run only for an update some handler's filters
    accepted: such a message passes logging, the throttle and the
    subscription gate; such a callback query passes logging and the
    subscription gate only. Logging forwards unchanged and is not
    modelled. */
module Pipeline {
  import opened DateTimes
  import opened Sheets
  import opened Throttling
  import opened Subscription

  /** One clock reading, in the throttle's milliseconds and as a date. */
  datatype Clock = Clock(ms: int, date: DateTime)

  class Dispatcher {
    const throttle: ThrottlingMiddleware
    const subscription: SubscriptionMiddleware

    constructor()
      ensures fresh(throttle) && throttle.userTimestamps == map[]
    {
      throttle := new ThrottlingMiddleware();
      subscription := new SubscriptionMiddleware();
    }

    /** A message: the throttle may drop it; an admitted message reaches
        the handler flagged as not requiring a subscription, and the table
        is never consulted. */
    method DispatchMessage(userId: int, now: Clock, data: HandlerData, sheets: GoogleSheetsManager)
      returns (handled: bool)
      requires Valid(now.date)
      modifies throttle, data, sheets
      ensures (handled, throttle.userTimestamps) == Step(old(throttle.userTimestamps), userId, now.ms)
      ensures data.entries == if handled then old(data.entries)["requires_subscription" := false]
                              else old(data.entries)
      ensures sheets.sheet == old(sheets.sheet)
    {
      handled := throttle.Call(userId, now.ms);
      if handled {
        var event := Message(userId);
        MessageNeverFlagged(userId, sheets.sheet, now.date);
        var _ := subscription.Call(event, data, sheets, now.date);
      }
    }

    /** A callback query: never throttled, always handled. */
    method DispatchCallback(userId: int, callbackData: string, now: Clock, data: HandlerData,
                            sheets: GoogleSheetsManager)
      returns (handled: bool)
      requires Valid(now.date)
      modifies data, sheets
      ensures handled
      ensures throttle.userTimestamps == old(throttle.userTimestamps)
      ensures data.entries == old(data.entries)["requires_subscription" :=
        RequiresSubscriptionFlag(CallbackQuery(userId, callbackData), old(sheets.sheet), now.date)]
      ensures sheets.sheet ==
        if Gated(callbackData) then AfterPaymentCheck(old(sheets.sheet), userId, now.date)
        else old(sheets.sheet)
    {
      var event := CallbackQuery(userId, callbackData);
      var _ := subscription.Call(event, data, sheets, now.date);
      return true;
    }
  }
}
