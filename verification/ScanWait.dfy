/**
Triggering a scan and waiting for it: first for a reply to the request, then for the scan
to end. What one call of nl_recvmsgs delivers is taken as given: the callbacks it makes, in
order, and its return value.
*/
module ScanWait {

  datatype Command = ScanAborted | NewScanResults | OtherCommand

  /** The callbacks registered for the request. */
  datatype Callback =
    | AckHandler
    | FinishHandler
    | ErrorHandler(code: int)
    | CallbackTrigger(cmd: Command)

  datatype Receive = Receive(callbacks: seq<Callback>, ret: int)

  datatype Option<T> = None | Some(value: T)

  // ------------------------------------------------------------ what has been said so far

  /** The latest reply: 0 for an acknowledgement or the end of a dump, else the error. */
  ghost function Reply(cbs: seq<Callback>): Option<int> {
    if cbs == [] then None
    else
      match cbs[|cbs| - 1]
      case AckHandler => Some(0)
      case FinishHandler => Some(0)
      case ErrorHandler(code) => Some(code)
      case CallbackTrigger(_) => Reply(cbs[..|cbs| - 1])
  }

  /** Whether the latest news of the scan is that it was aborted. */
  ghost function News(cbs: seq<Callback>): Option<bool> {
    if cbs == [] then None
    else
      match cbs[|cbs| - 1]
      case CallbackTrigger(ScanAborted) => Some(true)
      case CallbackTrigger(NewScanResults) => Some(false)
      case _ => News(cbs[..|cbs| - 1])
  }

  /** The value a callback leaves in `err`, if any. */
  ghost predicate Says(cb: Callback, v: int) {
    (v == 0 && (cb == AckHandler || cb == FinishHandler)) || cb == ErrorHandler(v)
  }

  /** The callback at `i` says `v`, and no later one says anything about the request. */
  ghost predicate LatestReply(cbs: seq<Callback>, i: nat, v: int) {
    i < |cbs| && Says(cbs[i], v) && forall j :: i < j < |cbs| ==> cbs[j].CallbackTrigger?
  }

  /** Reply is the latest one. */
  lemma {:induction false} ReplyIsLatest(cbs: seq<Callback>, v: int)
    ensures Reply(cbs) == Some(v) <==> exists i: nat :: LatestReply(cbs, i, v)
  {
    if cbs != [] {
      var n := |cbs| - 1;
      var front := cbs[..n];
      ReplyIsLatest(front, v);
      if cbs[n].CallbackTrigger? {
        if i: nat :| LatestReply(front, i, v) { assert LatestReply(cbs, i, v); }
        if i: nat :| LatestReply(cbs, i, v) { assert i < n && LatestReply(front, i, v); }
      } else {
        if Says(cbs[n], v) { assert LatestReply(cbs, n, v); }
        if i: nat :| LatestReply(cbs, i, v) { assert i == n; }
      }
    }
  }

  /** The callback at `i` is the end of the scan, and no later one is. */
  ghost predicate LatestNews(cbs: seq<Callback>, i: nat, aborted: bool) {
    && i < |cbs| && cbs[i] == CallbackTrigger(if aborted then ScanAborted else NewScanResults)
    && forall j :: i < j < |cbs| ==> cbs[j] != CallbackTrigger(ScanAborted) && cbs[j] != CallbackTrigger(NewScanResults)
  }

  /** News is the latest one. */
  lemma {:induction false} NewsIsLatest(cbs: seq<Callback>, aborted: bool)
    ensures News(cbs) == Some(aborted) <==> exists i: nat :: LatestNews(cbs, i, aborted)
  {
    if cbs != [] {
      var n := |cbs| - 1;
      var front := cbs[..n];
      NewsIsLatest(front, aborted);
      if cbs[n] != CallbackTrigger(ScanAborted) && cbs[n] != CallbackTrigger(NewScanResults) {
        if i: nat :| LatestNews(front, i, aborted) { assert LatestNews(cbs, i, aborted); }
        if i: nat :| LatestNews(cbs, i, aborted) { assert i < n && LatestNews(front, i, aborted); }
      } else {
        if cbs[n] == CallbackTrigger(if aborted then ScanAborted else NewScanResults) {
          assert LatestNews(cbs, n, aborted);
        }
        if i: nat :| LatestNews(cbs, i, aborted) { assert i == n; }
      }
    }
  }

  /** All callbacks of the first `n` receives. */
  ghost function Heard(rs: seq<Receive>, n: nat): seq<Callback>
    requires n <= |rs|
  {
    if n == 0 then [] else Heard(rs, n - 1) + rs[n - 1].callbacks
  }

  /** The latest reply after `n` receives is not positive. */
  ghost predicate Answered(rs: seq<Receive>, n: nat)
    requires n <= |rs|
  {
    Reply(Heard(rs, n)).Some? && Reply(Heard(rs, n)).value <= 0
  }

  ghost predicate Ended(rs: seq<Receive>, n: nat)
    requires n <= |rs|
  {
    News(Heard(rs, n)).Some?
  }

  ghost predicate FirstAnswered(rs: seq<Receive>, p: nat) {
    p <= |rs| && Answered(rs, p) && forall m :: 0 <= m < p ==> !Answered(rs, m)
  }

  /** The first moment at or after `p` at which the end of the scan is known. */
  ghost predicate FirstEnded(rs: seq<Receive>, p: nat, q: nat) {
    p <= q <= |rs| && Ended(rs, q) && forall m :: p <= m < q ==> !Ended(rs, m)
  }

  lemma {:induction false} NewsLasts(a: seq<Callback>, b: seq<Callback>)
    ensures News(a + b) == if News(b).Some? then News(b) else News(a)
  {
    if b == [] {
      assert a + b == a;
    } else {
      assert (a + b)[..|a + b| - 1] == a + b[..|b| - 1];
      NewsLasts(a, b[..|b| - 1]);
    }
  }

  /** News that came before the answer is not lost. */
  lemma {:induction false} EndedStays(rs: seq<Receive>, n: nat, m: nat)
    requires n <= m <= |rs| && Ended(rs, n)
    ensures Ended(rs, m)
  {
    if n < m {
      EndedStays(rs, n, m - 1);
      NewsLasts(Heard(rs, m - 1), rs[m - 1].callbacks);
    }
  }

  // ------------------------------------------------------------ the program

  /** The variables the callbacks write. */
  datatype Variables = Variables(err: int, done: bool, aborted: bool)

  /** What they hold once the callbacks `cbs` have been made. */
  ghost function After(cbs: seq<Callback>): Variables {
    Variables(if Reply(cbs).Some? then Reply(cbs).value else 1, News(cbs).Some?, News(cbs) == Some(true))
  }

  class Scan {
    var err: int
    var done: bool
    var aborted: bool

    constructor ()
      ensures Now() == After([])
    {
      err, done, aborted := 1, false, false;
    }

    ghost function Now(): Variables
      reads this
    {
      Variables(err, done, aborted)
    }

    /** error_handler, finish_handler, ack_handler and callback_trigger. */
    method Deliver(cb: Callback, ghost cbs: seq<Callback>)
      requires Now() == After(cbs)
      modifies this
      ensures Now() == After(cbs + [cb])
    {
      assert (cbs + [cb])[..|cbs|] == cbs;
      match cb
      case ErrorHandler(code) => err := code;
      case FinishHandler => err := 0;
      case AckHandler => err := 0;
      case CallbackTrigger(cmd) =>
        if cmd == ScanAborted {
          done := true;
          aborted := true;
        } else if cmd == NewScanResults {
          done := true;
          aborted := false;
        }
    }

    /** One call of nl_recvmsgs. */
    method Recvmsgs(rs: seq<Receive>, n: nat) returns (ret: int)
      requires n < |rs| && Now() == After(Heard(rs, n))
      modifies this
      ensures Now() == After(Heard(rs, n + 1)) && ret == rs[n].ret
    {
      var cbs := rs[n].callbacks;
      ghost var before := Heard(rs, n);
      assert before + cbs[..0] == before;
      for i := 0 to |cbs|
        invariant Now() == After(before + cbs[..i])
      {
        Deliver(cbs[i], before + cbs[..i]);
        assert before + cbs[..i] + [cbs[i]] == before + cbs[..i + 1];
      }
      assert cbs[..|cbs|] == cbs;
      ret := rs[n].ret;
    }
  }

  /** How the waiting ends: not within these receives, or with a return value after `used`
      of them. */
  ghost predicate Outcome(rs: seq<Receive>, p: nat, r: Option<int>, used: nat) {
    && used <= |rs|
    && match r
       case None =>
         // no answer yet, or a good one and no news of the scan
         used == |rs| &&
         ((forall m :: 0 <= m <= |rs| ==> !Answered(rs, m)) ||
          (FirstAnswered(rs, p) && p > 0 && rs[p - 1].ret >= 0 && !Ended(rs, |rs|)))
       case Some(v) =>
         FirstAnswered(rs, p) && p > 0 &&
         if rs[p - 1].ret < 0 then used == p && v == rs[p - 1].ret
         else FirstEnded(rs, p, used) && v == if News(Heard(rs, used)) == Some(true) then 1 else 0
  }

  /** The first wait loop: `answered` is false if the receives run out. */
  method AwaitAnswer(scan: Scan, rs: seq<Receive>) returns (answered: bool, ret: int, used: nat)
    requires scan.Now() == After([])
    modifies scan
    ensures used <= |rs| && scan.Now() == After(Heard(rs, used))
    ensures answered ==> FirstAnswered(rs, used) && used > 0 && ret == rs[used - 1].ret
    ensures !answered ==> used == |rs| && forall m :: 0 <= m <= |rs| ==> !Answered(rs, m)
  {
    ret, used := 0, 0;
    while scan.err > 0
      invariant used <= |rs| && scan.Now() == After(Heard(rs, used))
      invariant forall m :: 0 <= m < used ==> !Answered(rs, m)
      invariant used > 0 ==> ret == rs[used - 1].ret
      decreases |rs| - used
    {
      if used == |rs| { return false, ret, used; }
      ret := scan.Recvmsgs(rs, used);
      used := used + 1;
    }
    answered := true;
  }

  /** The second wait loop. */
  method AwaitEnd(scan: Scan, rs: seq<Receive>, p: nat) returns (ended: bool, used: nat)
    requires p <= |rs| && scan.Now() == After(Heard(rs, p))
    modifies scan
    ensures used <= |rs| && scan.Now() == After(Heard(rs, used))
    ensures ended ==> FirstEnded(rs, p, used)
    ensures !ended ==> used == |rs| && !Ended(rs, |rs|)
  {
    used := p;
    while !scan.done
      invariant p <= used <= |rs| && scan.Now() == After(Heard(rs, used))
      invariant forall m :: p <= m < used ==> !Ended(rs, m)
      decreases |rs| - used
    {
      if used == |rs| { return false, used; }
      var ignored := scan.Recvmsgs(rs, used);
      used := used + 1;
    }
    ended := true;
  }

  /** The waiting of do_scan_trigger, on everything the socket delivers. */
  method WaitForScan(rs: seq<Receive>) returns (r: Option<int>, used: nat)
    ensures exists p: nat :: Outcome(rs, p, r, used)
  {
    var scan := new Scan();
    var ret, answered, ended;
    answered, ret, used := AwaitAnswer(scan, rs);
    ghost var p := used;
    if !answered {
      r := None;
    } else if ret < 0 {
      r := Some(ret);
    } else {
      ended, used := AwaitEnd(scan, rs, used);
      r := if !ended then None else if scan.aborted then Some(1) else Some(0);
    }
    assert Outcome(rs, p, r, used);
  }

  lemma FirstAnsweredIsUnique(rs: seq<Receive>, p: nat, p': nat)
    requires FirstAnswered(rs, p) && FirstAnswered(rs, p')
    ensures p == p'
  {
  }

  /** The outcome is determined by what the socket delivers. */
  lemma OutcomeIsUnique(rs: seq<Receive>, p: nat, r: Option<int>, used: nat, p': nat, r': Option<int>, used': nat)
    requires Outcome(rs, p, r, used) && Outcome(rs, p', r', used')
    ensures r == r' && used == used'
  {
    if FirstAnswered(rs, p) && FirstAnswered(rs, p') { FirstAnsweredIsUnique(rs, p, p'); }
    if r.Some? && r'.None? && rs[p - 1].ret >= 0 { EndedStays(rs, used, |rs|); }
    if r'.Some? && r.None? && rs[p' - 1].ret >= 0 { EndedStays(rs, used', |rs|); }
  }

  /** A scan that ended before the request was answered is reported with the answer. */
  lemma EarlyNewsEndsTheWait(rs: seq<Receive>, p: nat, r: Option<int>, used: nat, n: nat)
    requires Outcome(rs, p, r, used) && FirstAnswered(rs, p) && p > 0 && rs[p - 1].ret >= 0
    requires n <= p && Ended(rs, n)
    ensures r.Some? && used == p
  {
    EndedStays(rs, n, p);
    EndedStays(rs, n, |rs|);
  }

  lemma HeardOnce(rs: seq<Receive>)
    requires |rs| == 1
    ensures Heard(rs, 0) == [] && Heard(rs, 1) == rs[0].callbacks
  {
    assert Heard(rs, 1) == Heard(rs, 0) + rs[0].callbacks;
  }

  /** The usual run: an acknowledgement and the end of the scan in one receive. Whatever
      outcome there is, it is 0 for results and 1 for an aborted scan. */
  lemma UsualOutcome(aborted: bool, rs: seq<Receive>, p: nat, r: Option<int>, used: nat)
    requires rs == [Receive([AckHandler, CallbackTrigger(if aborted then ScanAborted else NewScanResults)], 0)]
    requires Outcome(rs, p, r, used)
    ensures r == Some(if aborted then 1 else 0) && used == 1
  {
    var cbs := rs[0].callbacks;
    HeardOnce(rs);
    assert LatestReply(cbs, 0, 0) && LatestNews(cbs, 1, aborted);
    ReplyIsLatest(cbs, 0);
    NewsIsLatest(cbs, aborted);
    assert !Answered(rs, 0) && Answered(rs, 1) && Ended(rs, 1);
    assert Outcome(rs, 1, Some(if aborted then 1 else 0), 1);
    OutcomeIsUnique(rs, p, r, used, 1, Some(if aborted then 1 else 0), 1);
  }

  /** An error of the request ends the first wait: with the value nl_recvmsgs returned if that
      is negative, and otherwise the program goes on to wait for the end of the scan. */
  lemma ErrorOutcome(code: int, ret: int, rs: seq<Receive>, p: nat, r: Option<int>, used: nat)
    requires code < 0 && rs == [Receive([ErrorHandler(code)], ret)] && Outcome(rs, p, r, used)
    ensures r == (if ret < 0 then Some(ret) else None) && used == 1
  {
    var cbs := rs[0].callbacks;
    HeardOnce(rs);
    assert LatestReply(cbs, 0, code);
    ReplyIsLatest(cbs, code);
    NewsIsLatest(cbs, true);
    NewsIsLatest(cbs, false);
    assert !Answered(rs, 0) && Answered(rs, 1) && !Ended(rs, 1);
    assert Outcome(rs, 1, if ret < 0 then Some(ret) else None, 1);
    OutcomeIsUnique(rs, p, r, used, 1, if ret < 0 then Some(ret) else None, 1);
  }
}
