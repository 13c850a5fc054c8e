/** Many MD5 contexts at once: a scheduler takes their jobs and hands contexts back in any
    order. */
module Md5Manager {
  import opened Types
  import opened Md5Context

  /** The sum of the values of a map. */
  ghost function Sum<K>(m: map<K, nat>): nat {
    if m == map[] then 0
    else
      var k :| k in m;
      m[k] + Sum(m - {k})
  }

  lemma {:induction false} SumWithout<K>(m: map<K, nat>, k: K)
    requires k in m
    ensures Sum(m) == m[k] + Sum(m - {k})
    decreases m
  {
    var k' :| k' in m && Sum(m) == m[k'] + Sum(m - {k'});
    if k' != k {
      assert m - {k} - {k'} == m - {k'} - {k};
      SumWithout(m - {k'}, k);
      SumWithout(m - {k}, k');
    }
  }

  lemma SumWith<K>(m: map<K, nat>, k: K, v: nat)
    requires k !in m
    ensures Sum(m[k := v]) == v + Sum(m)
  {
    SumWithout(m[k := v], k);
    assert m[k := v] - {k} == m;
  }

  ghost predicate Same(d: Context, message: seq<byte>, closing: bool, error: Error)
    reads d
  {
    d.message == message && d.closing == closing && d.error == error
  }

  /** The context that a call returns, as a set. */
  ghost function One(c: Context?): set<Context> {
    if c == null then {} else {c}
  }

  /** The manager: contexts that share nothing, and those whose jobs the scheduler holds. */
  class Manager {
    var inflight: set<Context>
    ghost var all: set<Context>
    ghost var left: map<Context, nat>  // jobs still to come from each context in flight
    ghost var log: map<Context, seq<byte>>  // what the scheduler was handed since the digest was set up

    ghost predicate Valid()
      reads this, all, set c | c in all :: c.partial
    {
      && inflight <= all && left.Keys == inflight && log.Keys == all
      && (forall c | c in all :: c.Valid())
      && (forall c, d | c in all && d in all && c != d :: c.partial != d.partial)
      && (forall c | c in inflight :: c.processing && c.started && left[c] == c.JobsLeft())
    }

    /** md5_ctx_mgr_init, for contexts that share no partial block. */
    constructor (contexts: set<Context>)
      requires forall c | c in contexts :: c.Valid() && !c.processing
      requires forall c, d | c in contexts && d in contexts && c != d :: c.partial != d.partial
      ensures Valid() && Settled(null) && all == contexts && inflight == {}
    {
      inflight, all, left, log := {}, contexts, map[], map c | c in contexts :: c.blocks;
    }

    /** Nobody but the scheduler works on a context, and it was handed every job of it; except for
        at most one context. */
    ghost predicate Settled(but: Context?)
      requires log.Keys == all
      reads this, all
    {
      forall c | c in all && c != but :: (c.processing ==> c in inflight) && log[c] == c.blocks
    }

    /** Between calls, what the scheduler was handed of a context that has had its LAST and is not
        in flight is its message with the padding. */
    lemma Finished(c: Context)
      requires Valid() && Settled(null) && c in all && c !in inflight && c.started && c.closing
      ensures c.complete && log[c] == c.message + Padding(|c.message|) && |log[c]| % BLOCK == 0
    {
      c.Finished();
    }

    /** md5_mb_mgr_submit and md5_mb_mgr_flush: any job in flight is done and its context
        returned; a submission may also return none. */
    method Done(mayWait: bool) returns (r: Context?)
      requires Valid()
      modifies this`inflight, this`left
      ensures Valid() && (r == null ==> inflight == old(inflight) && left == old(left))
      ensures r == null ==> mayWait || inflight == {}
      ensures log == old(log)
      ensures r != null ==> && r in old(inflight) && inflight == old(inflight) - {r}
                            && Sum(left) + r.JobsLeft() == old(Sum(left))
    {
      if inflight == {} {
        return null;
      }
      var wait: bool := *;
      if mayWait && wait {
        return null;
      }
      var c :| c in inflight;
      SumWithout(left, c);
      inflight, left := inflight - {c}, left - {c};
      r := c;
    }

    /** md5_mb_mgr_submit: the job of c goes to the scheduler. This alone adds to the log. */
    method Take(c: Context)
      requires Valid() && Settled(c) && c in all && c !in inflight && c.processing && c.started
      requires IsJob(c.job) && c.blocks == log[c] + c.job
      modifies this`inflight, this`left, this`log
      ensures Valid() && Settled(null) && inflight == old(inflight) + {c}
      ensures log == old(log)[c := old(log)[c] + c.job]
      ensures Sum(left) == old(Sum(left)) + c.JobsLeft()
    {
      SumWith(left, c, c.JobsLeft());
      LogJob(c);
      inflight, left := inflight + {c}, left[c := c.JobsLeft()];
    }

    ghost method LogJob(c: Context)
      requires Valid() && Settled(c) && c in all && c.blocks == log[c] + c.job
      modifies this`log
      ensures Valid() && Settled(c) && log == old(log)[c := old(log)[c] + c.job] && log[c] == c.blocks
    {
      log := log[c := log[c] + c.job];
    }

    /** Hand the job of c to the scheduler, which may return a context. */
    method Hand(c: Context) returns (r: Context?)
      requires Valid() && Settled(c) && c in all && c !in inflight && c.processing && c.started
      requires IsJob(c.job) && c.blocks == log[c] + c.job
      modifies this`inflight, this`left, this`log
      ensures Valid() && Settled(r)
      ensures r != null ==> r in all && r !in inflight && r.processing && r.started && log[r] == r.blocks
      ensures inflight + One(r) == old(inflight) + {c}
      ensures Sum(left) + (if r == null then 0 else r.JobsLeft()) == old(Sum(left)) + c.JobsLeft()
    {
      Take(c);
      r := Done(true);
    }

    /** hash_init_digest */
    method InitDigest(c: Context)
      requires Valid() && c in all
      modifies this`log
      ensures Valid() && log == old(log)[c := []]
    {
      log := log[c := []];
    }

    /** A round of c, which the scheduler does not hold: no other context changes. */
    method RoundOf(c: Context) returns (hand: bool)
      requires Valid() && Settled(c) && c in all && c !in inflight && c.processing && c.started
      requires log[c] == c.blocks
      modifies c, c.partial
      ensures Valid() && (if hand then c.processing && c.JobsLeft() < old(c.JobsLeft()) else !c.processing)
      ensures c.blocks == log[c] + (if hand then c.job else []) && (hand ==> IsJob(c.job))
      ensures c.started && Settled(c) && forall d | d in all :: Same(d, old(d.message), old(d.closing), old(d.error))
    {
      hand := c.Round();
    }

    /** md5_ctx_mgr_resubmit: go on with c, and with whatever the scheduler returns for it. Of c
        and the contexts in flight before, the one returned is not in flight any more, and all
        others are. */
    method Resubmit(c: Context?) returns (r: Context?)
      requires Valid() && Settled(c)
      requires c != null ==> c in all && c !in inflight && c.processing && c.started && log[c] == c.blocks
      modifies this`inflight, this`left, this`log, all, set c | c in all :: c.partial
      ensures Valid() && Settled(null) && all == old(all)
      ensures r != null ==> r in all && r !in inflight && !r.processing && r.started
      ensures inflight + One(r) == old(inflight) + One(c)
      ensures forall d | d in all :: Same(d, old(d.message), old(d.closing), old(d.error))
      ensures r == null && c != null ==> Sum(left) < old(Sum(left)) + old(c.JobsLeft())
    {
      ghost var start := Sum(left) + (if c == null then 0 else c.JobsLeft());
      r := c;
      while r != null
        invariant Valid() && Settled(r) && all == old(all)
        invariant r != null ==> r in all && r !in inflight && r.processing && r.started && log[r] == r.blocks
        invariant inflight + One(r) == old(inflight) + One(c)
        invariant forall d | d in all :: Same(d, old(d.message), old(d.closing), old(d.error))
        invariant Sum(left) + (if r == null then 0 else r.JobsLeft()) <= start
        invariant r == null && c != null ==> Sum(left) < start
        decreases Sum(left) + (if r == null then 0 else r.JobsLeft())
      {
        var hand := RoundOf(r);
        if !hand {
          return;
        }
        r := Hand(r);
      }
    }

    /** md5_ctx_mgr_submit: of c and the contexts in flight before, the one returned is not in
        flight any more, and all others are. */
    method Submit(c: Context, buffer: seq<byte>, flags: int) returns (r: Context?)
      requires Valid() && Settled(null) && c in all
      modifies this`inflight, this`left, this`log, all, set c | c in all :: c.partial
      ensures Valid() && Settled(null) && all == old(all)
      ensures c.error == if flags < 0 || flags > 3 then InvalidFlags
                         else if old(c.processing) then AlreadyProcessing
                         else if old(c.complete) && flags % 2 == 0 then AlreadyCompleted
                         else NoError
      ensures c.error != NoError ==> r == c && inflight == old(inflight) && log == old(log)
      ensures c.error != NoError ==> c.message == old(c.message) && c.closing == old(c.closing)
      ensures c.error == NoError ==> c.message == (if flags % 2 == 1 then [] else old(c.message)) + buffer
      ensures c.error == NoError ==> (c.closing <==> flags >= 2)
      ensures c.error == NoError ==> inflight + One(r) == old(inflight) + {c}
      ensures c.error == NoError && r != null ==> r in all && r !in inflight && !r.processing && r.started
      ensures forall d | d in all && d != c :: Same(d, old(d.message), old(d.closing), old(d.error))
    {
      if flags < 0 || flags > FLAG_ENTIRE {
        c.Refuse(InvalidFlags);
        return c;
      }
      if c.processing {
        c.Refuse(AlreadyProcessing);
        return c;
      }
      if c.complete && flags % 2 == 0 {
        c.Refuse(AlreadyCompleted);
        return c;
      }
      r := Process(c, buffer, flags);
    }

    /** md5_ctx_mgr_submit after its checks. */
    method Process(c: Context, buffer: seq<byte>, flags: nat) returns (r: Context?)
      requires Valid() && Settled(null) && c in all
      requires flags <= FLAG_ENTIRE && !c.processing && (c.complete ==> flags % 2 == 1)
      modifies this`inflight, this`left, this`log, all, set c | c in all :: c.partial
      ensures Valid() && Settled(null) && all == old(all)
      ensures c.error == NoError && c.message == (if flags % 2 == 1 then [] else old(c.message)) + buffer
      ensures c.closing <==> flags >= FLAG_LAST
      ensures inflight + One(r) == old(inflight) + {c}
      ensures r != null ==> r in all && r !in inflight && !r.processing && r.started
      ensures forall d | d in all && d != c :: Same(d, old(d.message), old(d.closing), old(d.error))
    {
      var hand := TakeIn(c, buffer, flags);
      r := c;
      if hand {
        r := Hand(c);
      }
      assert inflight + One(r) == old(inflight) + {c};
      r := Resubmit(r);
    }

    /** Before c is handed over for the first time. */
    method TakeIn(c: Context, buffer: seq<byte>, flags: nat) returns (hand: bool)
      requires Valid() && Settled(null) && c in all
      requires flags <= FLAG_ENTIRE && !c.processing && (c.complete ==> flags % 2 == 1)
      modifies this`log, c, c.partial
      ensures Valid() && Settled(c) && c !in inflight && c.processing && c.started
      ensures c.blocks == log[c] + (if hand then c.job else []) && (hand ==> IsJob(c.job))
      ensures c.error == NoError && c.message == (if flags % 2 == 1 then [] else old(c.message)) + buffer
      ensures c.closing <==> flags >= FLAG_LAST
      ensures forall d | d in all && d != c :: Same(d, old(d.message), old(d.closing), old(d.error))
    {
      if flags % 2 == 1 {
        InitDigest(c);
      }
      hand := c.Accept(buffer, flags);
    }

    /** md5_ctx_mgr_flush: a context that was in flight, or null when none was. All others are
        still in flight. */
    method Flush() returns (r: Context?)
      requires Valid() && Settled(null)
      modifies this`inflight, this`left, this`log, all, set c | c in all :: c.partial
      ensures Valid() && Settled(null) && all == old(all)
      ensures r == null <==> old(inflight) == {}
      ensures inflight + One(r) == old(inflight)
      ensures r != null ==> r in old(inflight) && r !in inflight && !r.processing && r.started
      ensures forall d | d in all :: Same(d, old(d.message), old(d.closing), old(d.error))
    {
      while true
        invariant Valid() && Settled(null) && all == old(all) && inflight == old(inflight)
        invariant forall d | d in all :: Same(d, old(d.message), old(d.closing), old(d.error))
        decreases Sum(left)
      {
        var idle;
        r, idle := FlushOne();
        if idle || r != null {
          return;
        }
      }
    }

    method FlushOne() returns (r: Context?, idle: bool)
      requires Valid() && Settled(null)
      modifies this`inflight, this`left, this`log, all, set c | c in all :: c.partial
      ensures Valid() && Settled(null) && all == old(all)
      ensures (idle <==> old(inflight) == {}) && (idle ==> r == null)
      ensures inflight + One(r) == old(inflight)
      ensures r != null ==> r in old(inflight) && r !in inflight && !r.processing && r.started
      ensures forall d | d in all :: Same(d, old(d.message), old(d.closing), old(d.error))
      ensures r == null && !idle ==> Sum(left) < old(Sum(left))
    {
      r := Done(false);
      idle := r == null;
      if !idle {
        assert inflight + One(r) == old(inflight);
        r := Resubmit(r);
      }
    }
  }
}
