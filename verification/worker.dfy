/**
 The per-instance worker: a buffer of due accounts refilled from the store
 only when drained, popped from its end one account per poll tick, and the
 poll step that stamps the account, deduplicates the latest reply on its
 comment identifier, emits at most one push dispatch and returns the account
 record to save.

 The fetch of the latest reply is the parameter `fetch`, a function of the
 instance and the credential; a failed fetch is `None`, as for no reply. The
 push dispatch is an emitted `Dispatch` value.
 */
module Workers {
  import opened Entities
  import opened AccountQuery

  /** A worker's state: `accounts` is `None` before the first refill. */
  datatype Worker = Worker(instance: string, interval: int, accounts: Option<seq<Account>>)

  /** The result of popping the buffer. */
  datatype Popped = Popped(next: Option<Account>, worker: Worker)

  /** The push notification handed to the push provider. */
  datatype Notification = Notification(alert: string, badge: int, sound: string, topic: string, payload: Reply)

  /** One send of a notification to a list of device tokens. */
  datatype Dispatch = Dispatch(notification: Notification, deviceTokens: seq<string>)

  /** The poll step's outcome: the record to save and the dispatch, if any. */
  datatype WorkResult = WorkResult(saved: Account, dispatch: Option<Dispatch>)

  /** One poll tick: nothing to do, or the polled account and the step's outcome. */
  datatype TickResult =
    | Idle(worker: Worker)
    | Polled(worker: Worker, account: Account, result: WorkResult)

  const Badge: int := 1
  const Sound: string := "ping.aiff"
  const Topic: string := "com.gkasdorf.memmyapp"
  const Said: string := " said: "

  /** The accounts still buffered (none before the first refill). */
  function Pending(w: Worker): seq<Account>
  {
    if w.accounts.Some? then w.accounts.value else []
  }

  predicate HasPending(w: Worker)
  {
    w.accounts.Some? && |w.accounts.value| > 0
  }

  /** Refill: a no-op while accounts remain buffered; otherwise the buffer
      becomes the instance's due accounts, newest check first. */
  function LoadAccounts(w: Worker, store: seq<Account>, time: int, checkInterval: int): (r: Worker)
    ensures r.instance == w.instance && r.interval == w.interval
    ensures HasPending(w) ==> r == w
    ensures !HasPending(w) ==> r.accounts.Some?
    ensures !HasPending(w) ==> SortedDesc(Pending(r))
    ensures !HasPending(w) ==>
      forall a :: a in Pending(r) <==> a in store && IsDue(a, w.instance, time - checkInterval)
    ensures !HasPending(w) ==>
      forall a :: multiset(Pending(r))[a] == if IsDue(a, w.instance, time - checkInterval) then multiset(store)[a] else 0
  {
    if HasPending(w) then w
    else w.(accounts := Some(FindDue(store, w.instance, time - checkInterval)))
  }

  /** Pop the last buffered account, if any. */
  function GetNext(w: Worker): (p: Popped)
    ensures p.worker.instance == w.instance && p.worker.interval == w.interval
    ensures !HasPending(w) ==> p.next == None && p.worker == w
    ensures HasPending(w) ==> p.next.Some? && p.worker.accounts.Some?
    ensures HasPending(w) ==> Pending(w) == Pending(p.worker) + [p.next.value]
  {
    if !HasPending(w) then Popped(None, w)
    else
      var buffer := w.accounts.value;
      Popped(Some(buffer[|buffer| - 1]), w.(accounts := Some(buffer[..|buffer| - 1])))
  }

  /** The alert text: sender name, then " said: ", then the reply content. */
  function Alert(reply: Reply): (s: string)
    ensures |s| == |reply.senderName| + |Said| + |reply.content|
    ensures s[..|reply.senderName|] == reply.senderName
    ensures s[|reply.senderName|..|reply.senderName| + |Said|] == Said
    ensures s[|reply.senderName| + |Said|..] == reply.content
  {
    reply.senderName + Said + reply.content
  }

  /** The push-routing strings of the tokens, in order. */
  function TokenValues(tokens: seq<Token>): (r: seq<string>)
    ensures |r| == |tokens|
    ensures forall i :: 0 <= i < |tokens| ==> r[i] == tokens[i].token
  {
    if tokens == [] then []
    else [tokens[0].token] + TokenValues(tokens[1..])
  }

  /** The dispatch of `reply` to every device of `account`. */
  function SendNotification(account: Account, reply: Reply): (d: Dispatch)
    ensures d.notification.alert == Alert(reply)
    ensures d.notification.payload == reply
    ensures d.notification.badge == Badge && d.notification.sound == Sound && d.notification.topic == Topic
    ensures |d.deviceTokens| == |account.tokens|
    ensures forall i :: 0 <= i < |account.tokens| ==> d.deviceTokens[i] == account.tokens[i].token
  {
    Dispatch(Notification(Alert(reply), Badge, Sound, Topic, reply), TokenValues(account.tokens))
  }

  /** The poll step on one account: stamp the check time, fetch the latest
      reply, and push it unless it is missing or already notified. */
  function Work(account: Account, now: int, fetch: (string, string) -> Option<Reply>): (r: WorkResult)
    ensures r.saved.lastCheck == now
    ensures r.saved == account.(lastCheck := now, lastNotifiedId := r.saved.lastNotifiedId)
    ensures var reply := fetch(account.instance, account.authToken);
      r.dispatch.Some? <==> reply.Some? && reply.value.commentId != account.lastNotifiedId
    ensures r.dispatch.None? ==> r.saved.lastNotifiedId == account.lastNotifiedId
    ensures var reply := fetch(account.instance, account.authToken);
      r.dispatch.Some? ==>
        && r.dispatch.value == SendNotification(account, reply.value)
        && r.saved.lastNotifiedId == reply.value.commentId
  {
    var stamped := account.(lastCheck := now);
    var lastReply := fetch(stamped.instance, stamped.authToken);
    if lastReply.None? || lastReply.value.commentId == stamped.lastNotifiedId then
      WorkResult(stamped, None)
    else
      var dispatch := SendNotification(stamped, lastReply.value);
      WorkResult(stamped.(lastNotifiedId := lastReply.value.commentId), Some(dispatch))
  }

  /** One poll tick: pop the next account and run the poll step on it. */
  function Tick(w: Worker, now: int, fetch: (string, string) -> Option<Reply>): (t: TickResult)
    ensures t.worker.instance == w.instance && t.worker.interval == w.interval
    ensures t.Idle? <==> !HasPending(w)
    ensures t.Idle? ==> t.worker == w
    ensures t.Polled? ==> t.worker.accounts.Some? && Pending(w) == Pending(t.worker) + [t.account]
    ensures t.Polled? ==> t.result == Work(t.account, now, fetch)
  {
    var popped := GetNext(w);
    match popped.next
    case None => Idle(popped.worker)
    case Some(account) => Polled(popped.worker, account, Work(account, now, fetch))
  }

  /** The sequence in reverse order. */
  function Reverse(s: seq<Account>): (r: seq<Account>)
    ensures |r| == |s|
    ensures forall i :: 0 <= i < |s| ==> r[i] == s[|s| - 1 - i]
  {
    if s == [] then [] else Reverse(s[1..]) + [s[0]]
  }

  /** Reversing a sequence ordered newest check first orders it oldest first:
      a refilled buffer drains oldest check first. */
  lemma ReverseDescAsc(s: seq<Account>)
    requires SortedDesc(s)
    ensures SortedAsc(Reverse(s))
  {
  }

  /** The dispatches among a sequence of poll-step outcomes, in order. */
  function Sent(results: seq<WorkResult>): (r: seq<Dispatch>)
    ensures |r| <= |results|
  {
    if results == [] then []
    else
      var n := |results| - 1;
      Sent(results[..n]) + (if results[n].dispatch.Some? then [results[n].dispatch.value] else [])
  }

  /** A sequence of poll steps sends nothing exactly when none of its steps
      dispatches. */
  lemma {:induction false} SentNoneIff(results: seq<WorkResult>)
    ensures Sent(results) == [] <==> forall i :: 0 <= i < |results| ==> results[i].dispatch.None?
    decreases |results|
  {
    if results != [] {
      var n := |results| - 1;
      SentNoneIff(results[..n]);
      assert forall i :: 0 <= i < n ==> results[..n][i] == results[i];
    }
  }

  /** One more poll step adds its dispatch, if any, at the end. */
  lemma SentSnoc(results: seq<WorkResult>, r: WorkResult)
    ensures Sent(results + [r]) == Sent(results) + (if r.dispatch.Some? then [r.dispatch.value] else [])
  {
    assert (results + [r])[..|results|] == results;
  }

  /** A tick on a worker holding the first `n` accounts of `buffer` polls
      `buffer[n - 1]` and leaves the first `n - 1`; the accounts polled so far,
      last first, grow by that one. */
  lemma TickOnPrefix(w: Worker, buffer: seq<Account>, n: nat, now: int, fetch: (string, string) -> Option<Reply>)
    requires 0 < n <= |buffer| && w.accounts == Some(buffer[..n])
    ensures var t := Tick(w, now, fetch);
      && t.Polled?
      && t.account == buffer[n - 1]
      && t.worker.accounts == Some(buffer[..n - 1])
      && Reverse(buffer[n - 1..]) == Reverse(buffer[n..]) + [buffer[n - 1]]
  {
    var t := Tick(w, now, fetch);
    assert buffer[..n] == Pending(t.worker) + [t.account];
    assert buffer[..n][..n - 1] == buffer[..n - 1];
    assert buffer[n - 1..][1..] == buffer[n..];
  }

  /** Poll ticks until the buffer is empty: one tick per buffered account,
      taken from the end of the buffer, the `i`-th tick reading the clock as
      `times[i]`. `results` holds each tick's poll-step outcome and `sent`
      the dispatches in the order they were made. */
  method DrainBuffer(w: Worker, times: seq<int>, fetch: (string, string) -> Option<Reply>)
    returns (last: Worker, polled: seq<Account>, results: seq<WorkResult>, sent: seq<Dispatch>)
    requires |times| == |Pending(w)|
    ensures last.instance == w.instance && last.interval == w.interval
    ensures !HasPending(last)
    ensures last.accounts == if w.accounts.None? then None else Some([])
    ensures polled == Reverse(Pending(w))
    ensures |results| == |polled|
    ensures forall i {:trigger results[i]} :: 0 <= i < |polled| ==> results[i] == Work(polled[i], times[i], fetch)
    ensures sent == Sent(results)
  {
    var buffer := Pending(w);
    var n := |buffer|;
    last, polled, results, sent := w, [], [], [];
    assert buffer[..n] == buffer;
    while HasPending(last)
      invariant 0 <= n <= |buffer|
      invariant last.instance == w.instance && last.interval == w.interval
      invariant last.accounts == if w.accounts.None? then None else Some(buffer[..n])
      invariant polled == Reverse(buffer[n..])
      invariant |polled| <= |times|
      invariant |results| == |polled|
      invariant forall i {:trigger results[i]} :: 0 <= i < |polled| ==> results[i] == Work(polled[i], times[i], fetch)
      invariant sent == Sent(results)
      decreases n
    {
      var k := |polled|;
      var t := Tick(last, times[k], fetch);
      TickOnPrefix(last, buffer, n, times[k], fetch);
      SentSnoc(results, t.result);
      ghost var resultsBefore, polledBefore := results, polled;
      polled := polled + [t.account];
      results := results + [t.result];
      forall i | 0 <= i < |polled|
        ensures results[i] == Work(polled[i], times[i], fetch)
      {
        if i < k {
          assert results[i] == resultsBefore[i] && polled[i] == polledBefore[i];
        } else {
          assert results[i] == t.result && polled[i] == t.account;
        }
      }
      if t.result.dispatch.Some? {
        sent := sent + [t.result.dispatch.value];
      }
      last := t.worker;
      n := n - 1;
    }
    assert buffer[0..] == buffer;
  }

  /** On a buffer ordered newest check first, the popped account is one with
      the oldest check. */
  lemma GetNextOldest(w: Worker)
    requires HasPending(w) && SortedDesc(Pending(w))
    ensures GetNext(w).next.Some?
    ensures forall a :: a in Pending(w) ==> GetNext(w).next.value.lastCheck <= a.lastCheck
  {
  }

  /** After a poll step the account records a reply identifier other than
      before only when that very reply was dispatched. */
  lemma NotifiedIdFollowsDispatch(account: Account, now: int, fetch: (string, string) -> Option<Reply>)
    ensures var r := Work(account, now, fetch);
      r.saved.lastNotifiedId != account.lastNotifiedId ==>
        r.dispatch.Some? && r.dispatch.value.notification.payload.commentId == r.saved.lastNotifiedId
  {
  }

  /** Polling the same account twice against an unchanged latest reply
      dispatches at most once: the second step finds the reply already
      notified, and leaves the identifier where the first step put it. */
  lemma DedupIdempotent(account: Account, now1: int, now2: int, fetch: (string, string) -> Option<Reply>)
    ensures var first := Work(account, now1, fetch);
      var second := Work(first.saved, now2, fetch);
      && second.dispatch.None?
      && second.saved.lastNotifiedId == first.saved.lastNotifiedId
  {
  }

  /** A failed or empty fetch still stamps and saves the account, sends
      nothing, and the next tick moves on to the next buffered account. */
  lemma FetchFailureIsolated(w: Worker, now: int, later: int, fetch: (string, string) -> Option<Reply>)
    requires |Pending(w)| >= 2
    requires var a := Pending(w)[|Pending(w)| - 1]; fetch(a.instance, a.authToken).None?
    ensures var t := Tick(w, now, fetch);
      && t.Polled?
      && t.result.saved.lastCheck == now
      && t.result.dispatch.None?
      && Tick(t.worker, later, fetch).Polled?
      && Tick(t.worker, later, fetch).account == Pending(w)[|Pending(w)| - 2]
  {
  }

  /** The check time is stamped before the fetch, so with a positive check
      interval the saved account is not due again at the same moment. */
  lemma StampedNotDue(account: Account, now: int, checkInterval: int, fetch: (string, string) -> Option<Reply>)
    requires checkInterval > 0
    ensures !IsDue(Work(account, now, fetch).saved, account.instance, now - checkInterval)
  {
  }

  /** A refill buffers only accounts checked at least `checkInterval` before
      `time`, so a poll step run at a clock reading no earlier than the refill
      moves the account's check time forward by at least `checkInterval`, and
      never back. */
  lemma LoadedNeverRewound(w: Worker, store: seq<Account>, time: int, checkInterval: int, a: Account,
                           now: int, fetch: (string, string) -> Option<Reply>)
    requires !HasPending(w) && checkInterval >= 0 && now >= time
    requires a in Pending(LoadAccounts(w, store, time, checkInterval))
    ensures Work(a, now, fetch).saved.lastCheck >= a.lastCheck + checkInterval
    ensures Work(a, now, fetch).saved.lastCheck >= a.lastCheck
  {
  }
}
