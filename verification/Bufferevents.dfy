/** Rate-limited bufferevents and rate-limit groups (bufferevent_ratelim.c, bufferevent.c). */
module Bufferevents {
  import opened RateLimit

  /** The BEV_SUSPEND_ reasons. */
  datatype Why = Watermark | Bandwidth | GroupBandwidth | Lookup | FilterRead

  datatype Rate = Rate(rate: nat, maximum: nat)

  /** What ev_token_bucket_cfg_new accepts. */
  predicate RateOk(r: Rate) {
    1 <= r.rate <= r.maximum <= SSIZE_MAX
  }

  /** struct ev_token_bucket_cfg. */
  class Cfg {
    const read: Rate
    const write: Rate
    /** The length of a tick. */
    const msecPerTick: nat

    constructor (read: Rate, write: Rate, msecPerTick: nat)
      requires RateOk(read) && RateOk(write) && 0 < msecPerTick < UINT32_RANGE
      ensures this.read == read && this.write == write && this.msecPerTick == msecPerTick && Ok()
    {
      this.read, this.write, this.msecPerTick := read, write, msecPerTick;
    }

    predicate Ok() {
      RateOk(read) && RateOk(write) && 0 < msecPerTick < UINT32_RANGE
    }

    function Of(isWrite: bool): Rate {
      if isWrite then write else read
    }
  }

  /** The fields of a bufferevent that come in pairs, for one direction. */
  class Side {
    var limit: int
    var suspended: set<Why>
    /** Whether the user wants the direction, and whether the backend listens for it. */
    var enabled: bool
    var active: bool
    var maxSingle: int

    constructor ()
      ensures Ok() && suspended == {} && !enabled && maxSingle == MAX_SINGLE_DEFAULT
    {
      limit, suspended, enabled, active, maxSingle := 0, {}, false, false, MAX_SINGLE_DEFAULT;
    }

    ghost predicate Ok()
      reads this
    {
      active == (enabled && suspended == {})
    }

    /** bufferevent_suspend_read_ and bufferevent_suspend_write_. */
    method Suspend(what: Why)
      requires Ok()
      modifies `suspended, `active
      ensures Ok() && suspended == old(suspended) + {what}
    {
      if suspended == {} {
        active := false;
      }
      suspended := suspended + {what};
    }

    /** bufferevent_unsuspend_read_ and bufferevent_unsuspend_write_. */
    method Unsuspend(what: Why)
      requires Ok()
      modifies `suspended, `active
      ensures Ok() && suspended == old(suspended) - {what}
    {
      suspended := suspended - {what};
      if suspended == {} && enabled {
        active := true;
      }
    }

    /** bufferevent_enable for one direction. */
    method Enable()
      requires Ok()
      modifies `enabled, `active
      ensures Ok() && enabled
    {
      var impl := suspended == {};
      enabled := true;
      if impl {
        active := true;
      }
    }

    /** bufferevent_disable for one direction. */
    method Disable()
      requires Ok()
      modifies `enabled, `active
      ensures Ok() && !enabled
    {
      enabled := false;
      active := false;
    }

    /** bufferevent_set_max_single_read and bufferevent_set_max_single_write. */
    method SetMaxSingle(size: nat)
      modifies `maxSingle
      ensures maxSingle == if 0 < size <= SSIZE_MAX then size else MAX_SINGLE_DEFAULT
    {
      if size == 0 || size > SSIZE_MAX {
        maxSingle := MAX_SINGLE_DEFAULT;
      } else {
        maxSingle := size;
      }
    }

    /** The limit keeps to its configuration, and an empty bucket suspends its direction. */
    ghost predicate Limited(r: Rate)
      reads this
    {
      Ssize(limit) && limit <= r.maximum && (limit <= 0 ==> Bandwidth in suspended)
    }
  }

  /** Dividing a signed number truncates toward zero. */
  function Share(limit: int, members: nat): int
    requires members > 0
  {
    if limit >= 0 then limit / members else -((-limit) / members)
  }

  /** Equal parts for the members, each of which loses less than one. */
  lemma ShareIs(limit: int, members: nat)
    requires members > 0
    ensures limit >= 0 ==> 0 <= Share(limit, members) * members <= limit < (Share(limit, members) + 1) * members
    ensures limit <= 0 ==> (Share(limit, members) - 1) * members < limit <= Share(limit, members) * members <= 0
    ensures Share(limit, members) > 0 ==> limit >= 0
  {
    var d := if limit >= 0 then limit else -limit;
    Parts(d, members);
    assert (-(d / members)) * members == -(d / members * members);
    assert (-(d / members) - 1) * members == -(d / members * members) - members;
  }

  /**
   * A bufferevent that may otherwise move `own` may move `max` in a group of `n` that may move `limit`: no more than an
   * equal part or the minimal share, and no less unless it is `own`.
   */
  ghost predicate Granted(max: int, own: int, limit: int, n: nat, minShare: nat) {
    && 0 <= max <= Max(0, own)
    && max * n <= Max(limit, minShare * n)
    && (max < own ==> max >= minShare && limit < (max + 1) * n)
  }

  lemma Capped(own: int, share: int, limit: int, n: nat, minShare: nat)
    requires share >= minShare && (share > minShare ==> share * n <= limit) && limit < (share + 1) * n
    ensures Granted(Max(0, Min(own, share)), own, limit, n, minShare)
  {
    var max := Max(0, Min(own, share));
    if max < share { MoreEach(max, share, n); }
  }

  /** These bounds leave one number. */
  lemma GrantedOnce(a: int, b: int, own: int, limit: int, n: nat, minShare: nat)
    requires n > 0 && Granted(a, own, limit, n, minShare) && Granted(b, own, limit, n, minShare)
    ensures a == b
  {
    hide Granted;
    GrantedMost(a, b, own, limit, n, minShare);
    GrantedMost(b, a, own, limit, n, minShare);
  }

  lemma GrantedMost(a: int, b: int, own: int, limit: int, n: nat, minShare: nat)
    requires n > 0 && Granted(a, own, limit, n, minShare) && Granted(b, own, limit, n, minShare)
    ensures a >= b
  {
    if a < b {
      MoreEach(a + 1, b, n);
      MoreEach(minShare + 1, b, n);
    }
  }

  lemma Parts(d: nat, n: nat)
    requires n > 0
    ensures 0 <= d / n * n <= d < (d / n + 1) * n
  {
    assert d == d / n * n + d % n;
  }

  lemma MoreEach(a: int, b: int, n: nat)
    ensures a <= b ==> a * n <= b * n && (a + 1) * n <= (b + 1) * n
    ensures b <= a ==> b * n <= a * n && (b + 1) * n <= (a + 1) * n
  {
  }

  function Sum(xs: seq<int>): int {
    if xs == [] then 0 else Sum(xs[..|xs| - 1]) + xs[|xs| - 1]
  }

  /** What is granted to every member adds up to what there is for all of them. */
  lemma {:induction false} SumBelow(xs: seq<int>, n: nat, total: int)
    requires |xs| <= n && forall i :: 0 <= i < |xs| ==> 0 <= xs[i] && xs[i] * n <= total
    ensures n * Sum(xs) <= |xs| * total
  {
    if xs == [] {
    } else {
      var init, x := xs[..|xs| - 1], xs[|xs| - 1];
      SumBelow(init, n, total);
      assert n * (Sum(init) + x) == n * Sum(init) + x * n;
      assert (|init| + 1) * total == |init| * total + total;
    }
  }

  lemma SumWithin(xs: seq<int>, total: int)
    requires xs != [] && forall i :: 0 <= i < |xs| ==> 0 <= xs[i] && xs[i] * |xs| <= total
    ensures Sum(xs) <= total
  {
    hide Sum;
    SumBelow(xs, |xs|, total);
    if Sum(xs) > total { MoreEach(total + 1, Sum(xs), |xs|); }
  }

  /** struct bufferevent_private as far as rate limits go. */
  class Bufferevent {
    const read: Side
    const write: Side
    /** Whether `rate_limiting` is set. */
    var limited: bool
    var cfg: Cfg?
    var group: Group?
    var last: nat
    /** Whether refill_bucket_event is scheduled. */
    var refillPending: bool

    constructor ()
      ensures Valid() && !limited && cfg == null && group == null && fresh(read) && fresh(write)
      ensures read.suspended == {} && write.suspended == {}
    {
      read := new Side();
      write := new Side();
      limited, cfg, group, last, refillPending := false, null, null, 0, false;
    }

    function Of(isWrite: bool): Side {
      if isWrite then write else read
    }

    function Opposite(isWrite: bool): Side {
      if isWrite then read else write
    }

    /** An empty bucket suspends its direction, and then the timer that refills the bucket is scheduled. */
    ghost predicate Valid()
      reads this, read, write
    {
      && read != write && read.Ok() && write.Ok() && last < UINT32_RANGE
      && (cfg != null || group != null ==> limited)
      && if cfg == null then !refillPending && Bandwidth !in read.suspended && Bandwidth !in write.suspended
         else
           && cfg.Ok() && read.Limited(cfg.read) && write.Limited(cfg.write)
           && (refillPending <==> Bandwidth in read.suspended || Bandwidth in write.suspended)
    }

    /** ev_token_bucket_update_ for the bucket of a bufferevent. */
    method UpdateBucket(tick: nat) returns (updated: bool)
      requires Valid() && cfg != null && tick < UINT32_RANGE
      modifies `last, read`limit, write`limit
      ensures Valid() && (updated <==> TicksTo(old(last), tick) > 0)
      ensures Level(read.limit, last) ==
        Advance(Level(old(read.limit), old(last)), cfg.read.maximum, cfg.read.rate, tick)
      ensures Level(write.limit, last) ==
        Advance(Level(old(write.limit), old(last)), cfg.write.maximum, cfg.write.rate, tick)
      ensures read.limit >= old(read.limit) && write.limit >= old(write.limit)
    {
      hide Wrap, Signed;
      var ticks := Wrap(tick - last, UINT32_RANGE);
      if ticks == 0 || ticks > INT_MAX {
        return false;
      }
      RefillIsMin(cfg.read.maximum, cfg.read.rate, read.limit, ticks);
      RefillIsMin(cfg.write.maximum, cfg.write.rate, write.limit, ticks);
      Grows(cfg.read.rate, ticks);
      Grows(cfg.write.rate, ticks);
      if Wrap(cfg.read.maximum - read.limit, SIZE_RANGE) / ticks < cfg.read.rate {
        read.limit := cfg.read.maximum;
      } else {
        read.limit := Signed(Wrap(read.limit + Wrap(ticks * cfg.read.rate, SIZE_RANGE), SIZE_RANGE));
      }
      if Wrap(cfg.write.maximum - write.limit, SIZE_RANGE) / ticks < cfg.write.rate {
        write.limit := cfg.write.maximum;
      } else {
        write.limit := Signed(Wrap(write.limit + Wrap(ticks * cfg.write.rate, SIZE_RANGE), SIZE_RANGE));
      }
      last := tick;
      return true;
    }

    /** bufferevent_update_buckets. */
    method Refresh(now: nat)
      requires Valid() && cfg != null
      modifies `last, read`limit, write`limit
      ensures Valid()
      ensures var tick := GetTick(now, cfg.msecPerTick);
        && Level(read.limit, last) == Advance(Level(old(read.limit), old(last)), cfg.read.maximum, cfg.read.rate, tick)
        && Level(write.limit, last) ==
             Advance(Level(old(write.limit), old(last)), cfg.write.maximum, cfg.write.rate, tick)
    {
      var tick := GetTick(now, cfg.msecPerTick);
      if tick != last {
        var _ := UpdateBucket(tick);
      }
    }

    /**
     * bufferevent_get_rlim_max_: how much may be moved now. With a configuration the size limit for single operations
     * plays no part.
     */
    method RlimMax(isWrite: bool, now: nat) returns (max: int)
      requires Valid() && (group != null ==> group.Valid() && this in group.members)
      modifies `last, read, write
      ensures Valid() && (group != null ==> group.Valid())
      ensures !limited ==> max == Of(isWrite).maxSingle
      ensures limited ==>
        max == Max(0, Clamped(isWrite, if cfg != null then Of(isWrite).limit else Of(isWrite).maxSingle))
      ensures limited && group == null ==>
        max == Max(0, if cfg != null then Of(isWrite).limit else Of(isWrite).maxSingle)
      ensures limited && group != null && group.Of(isWrite).suspended ==> max == 0
      ensures limited && group != null && !group.Of(isWrite).suspended ==>
        Granted(max, if cfg != null then Of(isWrite).limit else Of(isWrite).maxSingle, group.Of(isWrite).limit,
          |group.members|, group.minShare)
      ensures
        && Of(isWrite).maxSingle == old(Of(isWrite).maxSingle)
        && Opposite(isWrite).suspended == old(Opposite(isWrite).suspended)
      ensures cfg != null ==>
        Level(Of(isWrite).limit, last) ==
          Advance(Level(old(Of(isWrite).limit), old(last)), cfg.Of(isWrite).maximum, cfg.Of(isWrite).rate,
            GetTick(now, cfg.msecPerTick))
      ensures Of(isWrite).suspended ==
        old(Of(isWrite).suspended) + if group != null && group.Of(isWrite).suspended then {GroupBandwidth} else {}
    {
      hide Granted, RateLimit.Advance, RateLimit.GetTick;
      var side := Of(isWrite);
      max := side.maxSingle;
      if !limited {
        return;
      }
      if cfg != null {
        Refresh(now);
        max := side.limit;
      }
      if group != null {
        var share := GroupShare(isWrite);
        if !group.Of(isWrite).suspended {
          Capped(max, share, group.Of(isWrite).limit, |group.members|, group.minShare);
        }
        if max > share {
          max := share;
        }
      }
      if max < 0 {
        max := 0;
      }
    }

    /** What the group grants; a member that was missed when the group was suspended is suspended now. */
    method GroupShare(isWrite: bool) returns (share: int)
      requires Valid() && group != null && group.Valid() && this in group.members
      modifies Of(isWrite)`suspended, Of(isWrite)`active
      ensures Valid() && group.Valid()
      ensures share ==
        if group.Of(isWrite).suspended then 0 else Max(group.minShare, Share(group.Of(isWrite).limit, |group.members|))
      ensures !group.Of(isWrite).suspended ==>
        && group.members != []
        && share >= group.minShare
        && (share > group.minShare ==> share * |group.members| <= group.Of(isWrite).limit)
        && group.Of(isWrite).limit < (share + 1) * |group.members|
      ensures Of(isWrite).suspended ==
        old(Of(isWrite).suspended) + if group.Of(isWrite).suspended then {GroupBandwidth} else {}
      ensures forall w: bool :: Of(w) != Of(isWrite) ==> Of(w).suspended == old(Of(w).suspended)
    {
      hide Share;
      share := 0;
      if group.Of(isWrite).suspended {
        group.Missed(this, isWrite);
      } else {
        share := Share(group.Of(isWrite).limit, |group.members|);
        ShareIs(group.Of(isWrite).limit, |group.members|);
        MoreEach(share, group.minShare, |group.members|);
        if share < group.minShare {
          share := group.minShare;
        }
      }
    }

    /** The smaller of `own` and the share that the group grants. */
    ghost function Clamped(isWrite: bool, own: int): int
      requires group != null ==> group.members != []
      reads this, group, if group == null then {} else {group.read, group.write}
    {
      if group == null then own
      else if group.Of(isWrite).suspended then Min(own, 0)
      else Min(own, Max(group.minShare, Share(group.Of(isWrite).limit, |group.members|)))
    }

    /**
     * bufferevent_decrement_read_buckets_ and bufferevent_decrement_write_buckets_ for the bucket of the bufferevent.
     */
    method Decrement(isWrite: bool, bytes: int)
      requires Valid() && (cfg != null ==> -SSIZE_MAX - 1 <= Of(isWrite).limit - bytes <= cfg.Of(isWrite).maximum)
      modifies `refillPending, read`limit, read`suspended, read`active, write`limit, write`suspended, write`active
      ensures Valid()
      ensures Of(isWrite).limit == old(Of(isWrite).limit) - if cfg != null then bytes else 0
      ensures
        && Opposite(isWrite).limit == old(Opposite(isWrite).limit)
        && Opposite(isWrite).suspended == old(Opposite(isWrite).suspended)
      ensures cfg != null ==>
        Of(isWrite).suspended ==
          (old(Of(isWrite).suspended) - {Bandwidth}) + (if Of(isWrite).limit <= 0 then {Bandwidth} else {})
      ensures cfg == null ==> Of(isWrite).suspended == old(Of(isWrite).suspended)
    {
      if !limited {
        return;
      }
      var side := Of(isWrite);
      if cfg != null {
        side.limit := side.limit - bytes;
        if side.limit <= 0 {
          side.Suspend(Bandwidth);
          refillPending := true;
        } else if Bandwidth in side.suspended {
          if Bandwidth !in Opposite(isWrite).suspended {
            refillPending := false;
          }
          side.Unsuspend(Bandwidth);
        }
      }
    }

    /**
     * bufferevent_decrement_read_buckets_ and bufferevent_decrement_write_buckets_: what was moved counts for the
     * bufferevent and for its group.
     */
    method DecrementBuckets(isWrite: bool, bytes: int, which: nat, busy: set<Bufferevent>)
      requires Valid() && (cfg != null ==> -SSIZE_MAX - 1 <= Of(isWrite).limit - bytes <= cfg.Of(isWrite).maximum)
      requires group != null ==> group.Valid() && group.AllValid() && this in group.members && which < |group.members|
      requires group != null ==> -SSIZE_MAX - 1 <= group.Of(isWrite).limit - bytes <= group.RateOf(isWrite).maximum
      modifies `refillPending, read`limit, read`suspended, read`active, write`limit, write`suspended, write`active
      modifies if group == null then {} else {group.Of(isWrite)}
      modifies (if group == null then {} else group.Sides())`suspended
      modifies (if group == null then {} else group.Sides())`active
      ensures Valid() && (group != null ==> group.Valid() && group.AllValid())
      ensures cfg != null ==>
        && Of(isWrite).limit == old(Of(isWrite).limit) - bytes
        && (Of(isWrite).limit <= 0 <==> Bandwidth in Of(isWrite).suspended)
      ensures group != null ==>
        && group.Of(isWrite).limit == old(group.Of(isWrite).limit) - bytes
        && (group.Of(isWrite).suspended <==> group.Of(isWrite).limit <= 0)
    {
      if group == null {
        Decrement(isWrite, bytes);
      } else {
        DecrementMember(isWrite, bytes);
        TakeShare(isWrite, bytes, which, busy);
      }
    }

    /** The bucket of a member does not concern the other members. */
    method DecrementMember(isWrite: bool, bytes: int)
      requires Valid() && (cfg != null ==> -SSIZE_MAX - 1 <= Of(isWrite).limit - bytes <= cfg.Of(isWrite).maximum)
      requires group != null && group.Valid() && group.AllValid() && this in group.members
      modifies `refillPending, read`limit, read`suspended, read`active, write`limit, write`suspended, write`active
      ensures Valid() && group.Valid() && group.AllValid()
      ensures cfg != null ==>
        && Of(isWrite).limit == old(Of(isWrite).limit) - bytes
        && (Of(isWrite).limit <= 0 <==> Bandwidth in Of(isWrite).suspended)
    {
      hide Apart, Group.Limits;
      ghost var i :| 0 <= i < |group.members| && group.members[i] == this;
      OthersApart(group.members, i);
      Decrement(isWrite, bytes);
      assert group.AllValid() by {
        assert forall j :: 0 <= j < |group.members| && j != i ==> group.members[j].Valid();
      }
    }

    method TakeShare(isWrite: bool, bytes: int, which: nat, busy: set<Bufferevent>)
      requires
        && Valid()
        && group != null
        && group.Valid()
        && group.AllValid()
        && this in group.members
        && which < |group.members|
      requires -SSIZE_MAX - 1 <= group.Of(isWrite).limit - bytes <= group.RateOf(isWrite).maximum
      modifies group.Of(isWrite), group.Sides()`suspended, group.Sides()`active
      ensures Valid() && group.Valid() && group.AllValid()
      ensures Bandwidth in Of(isWrite).suspended <==> Bandwidth in old(Of(isWrite).suspended)
      ensures group.Of(isWrite).limit == old(group.Of(isWrite).limit) - bytes
      ensures group.Of(isWrite).suspended <==> group.Of(isWrite).limit <= 0
    {
      hide Apart, Group.Valid;
      ghost var i :| 0 <= i < |group.members| && group.members[i] == this;
      group.Take(isWrite, bytes, which, busy);
      assert group.members[i].Valid();
      assert Bandwidth in Of(isWrite).suspended <==> Bandwidth in Of(isWrite).suspended - {GroupBandwidth};
    }

    /** bufferevent_decrement_read_limit and bufferevent_decrement_write_limit. */
    method DecrementLimit(isWrite: bool, bytes: int)
      requires
        && Valid()
        && limited
        && cfg != null
        && -SSIZE_MAX - 1 <= Of(isWrite).limit - bytes <= cfg.Of(isWrite).maximum
      modifies `refillPending, read`limit, read`suspended, read`active, write`limit, write`suspended, write`active
      ensures Valid() && Of(isWrite).limit == old(Of(isWrite).limit) - bytes
      ensures
        && Opposite(isWrite).limit == old(Opposite(isWrite).limit)
        && Opposite(isWrite).suspended == old(Opposite(isWrite).suspended)
      ensures Of(isWrite).suspended ==
        if Of(isWrite).limit <= 0 then old(Of(isWrite).suspended) + {Bandwidth}
        else if old(Of(isWrite).limit) <= 0 then old(Of(isWrite).suspended) - {Bandwidth}
        else old(Of(isWrite).suspended)
    {
      var side := Of(isWrite);
      var oldLimit := side.limit;
      side.limit := side.limit - bytes;
      if oldLimit > 0 && side.limit <= 0 {
        side.Suspend(Bandwidth);
        refillPending := true;
      } else if oldLimit <= 0 && side.limit > 0 {
        if Bandwidth !in Opposite(isWrite).suspended {
          refillPending := false;
        }
        side.Unsuspend(Bandwidth);
      }
    }

    /** bev_refill_callback_, when the timer runs out at `now`. */
    method RefillCallback(now: nat)
      requires Valid() && refillPending
      modifies `refillPending, `last, read`limit, read`suspended, read`active, write`limit, write`suspended
      modifies write`active
      ensures Valid()
      ensures var tick := GetTick(now, cfg.msecPerTick);
        && Level(read.limit, last) == Advance(Level(old(read.limit), old(last)), cfg.read.maximum, cfg.read.rate, tick)
        && Level(write.limit, last) ==
             Advance(Level(old(write.limit), old(last)), cfg.write.maximum, cfg.write.rate, tick)
      ensures read.suspended == old(read.suspended) - if read.limit > 0 then {Bandwidth} else {}
      ensures write.suspended == old(write.suspended) - if write.limit > 0 then {Bandwidth} else {}
    {
      var _ := UpdateBucket(GetTick(now, cfg.msecPerTick));
      refillPending := false;
      var again := false;
      if Bandwidth in read.suspended {
        if read.limit > 0 {
          read.Unsuspend(Bandwidth);
        } else {
          again := true;
        }
      }
      if Bandwidth in write.suspended {
        if write.limit > 0 {
          write.Unsuspend(Bandwidth);
        } else {
          again := true;
        }
      }
      if again {
        refillPending := true;
      }
    }

    /**
     * bufferevent_set_rate_limit. On a change of the configuration the tick of the last update stays, even if ticks
     * have another length now.
     */
    method SetRateLimit(cfg: Cfg?, now: nat)
      requires Valid() && (cfg != null ==> cfg.Ok())
      modifies this, read`limit, read`suspended, read`active, write`limit, write`suspended, write`active
      ensures Valid() && this.cfg == cfg && group == old(group)
      ensures cfg == null || old(this.cfg) == cfg ==>
        read.limit == old(read.limit) && write.limit == old(write.limit) && last == old(last)
      ensures cfg != null && old(this.cfg) == null ==> read.limit == cfg.read.rate && write.limit == cfg.write.rate
      ensures cfg != null && old(this.cfg) == null ==> last == GetTick(now, cfg.msecPerTick)
      ensures cfg != null && old(this.cfg) != null && old(this.cfg) != cfg ==>
        && read.limit == Min(old(read.limit), cfg.read.maximum)
        && write.limit == Min(old(write.limit), cfg.write.maximum)
        && last == old(last)
      ensures cfg == null || old(this.cfg) != cfg ==>
        && read.suspended ==
             old(read.suspended) - {Bandwidth} + (if cfg != null && read.limit <= 0 then {Bandwidth} else {})
        && write.suspended ==
             old(write.suspended) - {Bandwidth} + (if cfg != null && write.limit <= 0 then {Bandwidth} else {})
      ensures cfg != null && old(this.cfg) == cfg ==>
        && read.suspended == old(read.suspended)
        && write.suspended == old(write.suspended)
        && refillPending == old(refillPending)
    {
      if cfg == null {
        if limited {
          this.cfg := null;
          read.Unsuspend(Bandwidth);
          write.Unsuspend(Bandwidth);
          refillPending := false;
        }
        return;
      }
      if limited && this.cfg == cfg {
        return;
      }
      var tick := GetTick(now, cfg.msecPerTick);
      limited := true;
      var reinit := this.cfg != null;
      this.cfg := cfg;
      InitBucket(tick, reinit);
      if reinit {
        refillPending := false;
      }
      var readSuspended := Settle(read);
      var writeSuspended := Settle(write);
      if readSuspended || writeSuspended {
        refillPending := true;
      }
    }

    /** ev_token_bucket_init_. */
    method InitBucket(tick: nat, reinitialize: bool)
      requires cfg != null && cfg.Ok() && read != write
      modifies `last, read`limit, write`limit
      ensures if reinitialize
        then
          && read.limit == Min(old(read.limit), cfg.read.maximum)
          && write.limit == Min(old(write.limit), cfg.write.maximum)
          && last == old(last)
        else read.limit == cfg.read.rate && write.limit == cfg.write.rate && last == tick
    {
      if reinitialize {
        if read.limit > cfg.read.maximum {
          read.limit := cfg.read.maximum;
        }
        if write.limit > cfg.write.maximum {
          write.limit := cfg.write.maximum;
        }
      } else {
        read.limit, write.limit := cfg.read.rate, cfg.write.rate;
        last := tick;
      }
    }

    /** A direction is suspended if its bucket is empty, and goes on otherwise. */
    static method Settle(side: Side) returns (suspended: bool)
      requires side.Ok()
      modifies side`suspended, side`active
      ensures side.Ok() && suspended == (side.limit <= 0)
      ensures side.suspended ==
        if suspended then old(side.suspended) + {Bandwidth} else old(side.suspended) - {Bandwidth}
    {
      suspended := side.limit <= 0;
      if suspended {
        side.Suspend(Bandwidth);
      } else {
        side.Unsuspend(Bandwidth);
      }
    }

    /**
     * The timer runs out at `times` until it is not scheduled any more. With times of which the ticks follow each
     * other, it ends exactly when the last tick is one in which both buckets are refilled.
     */
    method WaitForRefill(times: seq<nat>) returns (fired: nat)
      requires Valid() && cfg != null
      modifies `refillPending, `last, read`limit, read`suspended, read`active, write`limit, write`suspended
      modifies write`active
      ensures Valid() && fired <= |times| && (refillPending ==> fired == |times|)
      ensures var us := Ticks(times, cfg.msecPerTick)[..fired];
        && Level(read.limit, last) == Waited(Level(old(read.limit), old(last)), cfg.read.maximum, cfg.read.rate, us)
        && Level(write.limit, last) == Waited(Level(old(write.limit), old(last)), cfg.write.maximum, cfg.write.rate, us)
      ensures fired == 0 ==>
        && refillPending == old(refillPending)
        && read.suspended == old(read.suspended)
        && write.suspended == old(write.suspended)
      ensures fired > 0 ==>
        && read.suspended == old(read.suspended) - {Bandwidth} + (if read.limit <= 0 then {Bandwidth} else {})
        && write.suspended == old(write.suspended) - {Bandwidth} + (if write.limit <= 0 then {Bandwidth} else {})
      ensures var us := Ticks(times, cfg.msecPerTick);
        us != [] && Following(us) ==>
          var due, u := Due(old(last), us[0]), us[|us| - 1];
          refillPending <==>
            && old(refillPending)
            && !(RefilledBy(old(read.limit), cfg.read.rate, due, u) &&
                 RefilledBy(old(write.limit), cfg.write.rate, due, u))
      ensures var us := Ticks(times, cfg.msecPerTick);
        fired > 0 && Following(us) ==>
          var due, u := Due(old(last), us[0]), us[fired - 1];
          && read.limit == Gain(old(read.limit), cfg.read.maximum, cfg.read.rate, due, u)
          && write.limit == Gain(old(write.limit), cfg.write.maximum, cfg.write.rate, due, u)
    {
      hide Advance, RefilledBy, Following, Due, GetTick, Gain;
      fired := 0;
      ghost var us := Ticks(times, cfg.msecPerTick);
      while fired < |times| && refillPending
        invariant Valid() && 0 <= fired <= |times|
        invariant Level(read.limit, last) ==
          Waited(Level(old(read.limit), old(last)), cfg.read.maximum, cfg.read.rate, us[..fired])
        invariant Level(write.limit, last) ==
          Waited(Level(old(write.limit), old(last)), cfg.write.maximum, cfg.write.rate, us[..fired])
        invariant fired == 0 ==>
          && refillPending == old(refillPending)
          && read.suspended == old(read.suspended)
          && write.suspended == old(write.suspended)
        invariant fired > 0 ==>
          && old(refillPending)
          && read.suspended == old(read.suspended) - {Bandwidth} + (if read.limit <= 0 then {Bandwidth} else {})
          && write.suspended == old(write.suspended) - {Bandwidth} + (if write.limit <= 0 then {Bandwidth} else {})
      {
        WaitedOn(Level(old(read.limit), old(last)), cfg.read, times, cfg.msecPerTick, fired);
        WaitedOn(Level(old(write.limit), old(last)), cfg.write, times, cfg.msecPerTick, fired);
        RefillCallback(times[fired]);
        fired := fired + 1;
      }
      if fired > 0 && Following(us) {
        WaitedPositive(Level(old(read.limit), old(last)), cfg.read, us, fired);
        WaitedPositive(Level(old(write.limit), old(last)), cfg.write, us, fired);
      }
    }

    /** One of the things that happen to the bucket of a bufferevent. */
    method Do(op: Op)
      requires Valid() && (op.Configure? && op.cfg != null ==> op.cfg.Ok())
      modifies this, read, write
      ensures Valid() && group == old(group)
      ensures cfg == if op.Configure? then op.cfg else old(cfg)
      ensures last == old(last) || (op.Timed() && cfg != null && last == GetTick(op.now, cfg.msecPerTick))
      ensures old(cfg) == null && cfg != null ==> last == GetTick(op.now, cfg.msecPerTick)
    {
      hide Advance, GetTick;
      match op
      case Configure(c, now) =>
        SetRateLimit(c, now);
      case Moved(isWrite, bytes) =>
        if cfg != null ==> -SSIZE_MAX - 1 <= Of(isWrite).limit - bytes <= cfg.Of(isWrite).maximum {
          Decrement(isWrite, bytes);
        }
      case Charged(isWrite, bytes) =>
        if cfg != null && -SSIZE_MAX - 1 <= Of(isWrite).limit - bytes <= cfg.Of(isWrite).maximum {
          DecrementLimit(isWrite, bytes);
        }
      case Timer(now) =>
        if refillPending {
          AdvanceLast(read.limit, write.limit, last, cfg, now);
          RefillCallback(now);
        }
      case Asked(now) =>
        if cfg != null {
          AdvanceLast(read.limit, write.limit, last, cfg, now);
          Refresh(now);
        }
      case Held(isWrite, why) =>
        if why != Bandwidth {
          Of(isWrite).Suspend(why);
        }
      case Released(isWrite, why) =>
        if why != Bandwidth {
          Of(isWrite).Unsuspend(why);
        }
    }

    /**
     * Any run keeps the timer scheduled while a bucket is empty. If moreover all configurations have ticks of `per`
     * milliseconds and the clock, at `start` in the beginning, does not go back, the bucket stands at a tick in the
     * past.
     */
    method Run(ops: seq<Op>, ghost per: nat, ghost start: nat, ghost stands: nat) returns (ghost tick: nat)
      requires Valid() && OpsOk(ops) && per > 0
      requires cfg != null && Steady(ops, per, start) ==>
        cfg.msecPerTick == per && last == Wrap(stands, UINT32_RANGE) && stands <= start / per
      modifies this, read, write
      ensures Valid() && group == old(group)
      ensures cfg != null && Steady(ops, per, start) ==>
        cfg.msecPerTick == per && last == Wrap(tick, UINT32_RANGE) && tick <= Latest(ops, start) / per
    {
      hide Wrap, Steady;
      var i := 0;
      tick := stands;
      while i < |ops|
        invariant Valid() && 0 <= i <= |ops| && group == old(group)
        invariant cfg != null && Steady(ops, per, start) ==>
          cfg.msecPerTick == per && last == Wrap(tick, UINT32_RANGE) && tick <= Latest(ops[..i], start) / per
      {
        ghost var was, whence := last, cfg;
        Do(ops[i]);
        if cfg != null && Steady(ops, per, start) {
          StepSteady(ops, i, per, start);
          if whence == null || last != was {
            tick := ops[i].now / per;
          }
        }
        i := i + 1;
      }
      assert ops[..i] == ops;
    }

    /**
     * No stall. After any run, with any changes of the configuration, the timer runs out at `times`: whether a
     * suspension for an empty bucket has ended depends on the limits, the tick of the last update and the rates alone.
     * After a run in which ticks had one length, that tick lies in the past.
     */
    method NoStall(ops: seq<Op>, times: seq<nat>, ghost per: nat, ghost start: nat)
      returns (readLimit: int, writeLimit: int, since: nat, pending: bool, ghost stands: nat)
      requires Valid() && OpsOk(ops) && per > 0 && cfg == null
      modifies this, read, write
      ensures Valid() && since < UINT32_RANGE
      ensures cfg == null ==> Bandwidth !in read.suspended && Bandwidth !in write.suspended
      ensures cfg != null ==> var us := Ticks(times, cfg.msecPerTick);
        us != [] && Following(us) ==>
          var due, u := Due(since, us[0]), us[|us| - 1];
          (Bandwidth in read.suspended || Bandwidth in write.suspended) <==>
            pending && !(RefilledBy(readLimit, cfg.read.rate, due, u) && RefilledBy(writeLimit, cfg.write.rate, due, u))
      ensures cfg != null && Steady(ops, per, start) ==>
        && cfg.msecPerTick == per && stands <= Latest(ops, start) / per
        && forall u :: stands <= u <= stands + INT_MAX ==> Due(since, u) == stands
    {
      hide Due, RefilledBy, Following, GetTick, Waited;
      stands := Run(ops, per, start, 0);
      readLimit, writeLimit, since, pending := read.limit, write.limit, last, refillPending;
      if cfg != null {
        if Steady(ops, per, start) {
          forall u | stands <= u <= stands + INT_MAX ensures Due(since, u) == stands {
            OnTime(stands, u);
          }
        }
        var _ := WaitForRefill(times);
      }
    }

    /**
     * A bufferevent that a change to longer ticks stalls: a bucket emptied in tick 1700000000 of one second stays
     * suspended whatever happens in its ticks of ten seconds up to that number, for 485 years.
     */
    static method Stalled(times: seq<nat>) returns (b: Bufferevent)
      requires times != [] && Following(Ticks(times, 10000))
      requires forall i :: 0 <= i < |times| ==> 170000000 <= times[i] / 10000 <= 1700000000
      ensures b.Valid() && b.refillPending && b.read.limit == 0 && Bandwidth in b.read.suspended
    {
      hide Waited, Advance, Following, Due;
      var seconds := new Cfg(Rate(1, 1), Rate(1, 1), 1000);
      var longer := new Cfg(Rate(1, 1), Rate(1, 1), 10000);
      b := new Bufferevent();
      LongerTicksStall();
      b.SetRateLimit(seconds, 1700000000000);
      b.Decrement(false, 1);
      b.SetRateLimit(longer, 1700000000000);
      assert b.last == 1700000000 && b.read.limit == 0 && b.refillPending;
      var us := Ticks(times, 10000);
      StillDue(us[0]);
      var _ := b.WaitForRefill(times);
    }
  }

  /** The ticks of times in milliseconds, counted without wrapping. */
  function Ticks(times: seq<nat>, msecPerTick: nat): (us: seq<nat>)
    requires msecPerTick > 0
    ensures |us| == |times| && forall i :: 0 <= i < |us| ==> us[i] == times[i] / msecPerTick
  {
    seq(|times|, i requires 0 <= i < |times| => times[i] / msecPerTick)
  }

  /** By tick `u` a bucket that stands at tick `due` is above zero: it was, or its ticks outweigh what is missing. */
  predicate RefilledBy(limit: int, rate: nat, due: int, u: int)
    requires rate > 0
  {
    limit > 0 || u - due > (-limit) / rate
  }

  lemma GainPositive(limit: int, r: Rate, due: int, u: int)
    requires RateOk(r) && limit <= r.maximum
    ensures Gain(limit, r.maximum, r.rate, due, u) > 0 <==> RefilledBy(limit, r.rate, due, u)
  {
    if u > due {
      Gained(limit, r.rate, u - due);
    }
  }

  lemma Gained(limit: int, rate: nat, n: nat)
    requires rate > 0 && n > 0
    ensures limit + n * rate > 0 <==> limit > 0 || n > (-limit) / rate
  {
    if limit <= 0 {
      QuotientBelow(-limit, rate, n);
      assert n * rate == rate * n;
    } else {
      Grows(rate, n);
    }
  }

  lemma WaitedOn(l: Level, r: Rate, times: seq<nat>, msecPerTick: nat, i: nat)
    requires i < |times| && msecPerTick > 0
    ensures var us := Ticks(times, msecPerTick);
      Waited(l, r.maximum, r.rate, us[..i + 1])
      == Advance(Waited(l, r.maximum, r.rate, us[..i]), r.maximum, r.rate, GetTick(times[i], msecPerTick))
  {
    hide Advance;
    var us := Ticks(times, msecPerTick);
    assert us[..i + 1][..i] == us[..i];
  }

  lemma WaitedPositive(l: Level, r: Rate, us: seq<nat>, n: nat)
    requires
      && RateOk(r)
      && Ssize(l.limit)
      && l.limit <= r.maximum
      && l.last < UINT32_RANGE
      && Following(us)
      && 0 < n <= |us|
    ensures Waited(l, r.maximum, r.rate, us[..n]).limit > 0 <==>
      RefilledBy(l.limit, r.rate, Due(l.last, us[0]), us[n - 1])
    ensures RefilledBy(l.limit, r.rate, Due(l.last, us[0]), us[n - 1]) ==>
      RefilledBy(l.limit, r.rate, Due(l.last, us[0]), us[|us| - 1])
    ensures Waited(l, r.maximum, r.rate, us[..n]).limit ==
      Gain(l.limit, r.maximum, r.rate, Due(l.last, us[0]), us[n - 1])
  {
    hide Gain, Waited, Due;
    WaitExact(l, r.maximum, r.rate, us[..n]);
    GainPositive(l.limit, r, Due(l.last, us[0]), us[n - 1]);
    Rising(us, n - 1);
  }

  lemma {:induction false} Rising(us: seq<nat>, i: nat)
    requires Following(us) && i < |us|
    ensures us[i] <= us[|us| - 1]
    decreases |us| - i
  {
    if i < |us| - 1 {
      Rising(us, i + 1);
    }
  }

  /** Within 2^31 ticks after an update the bucket stands at the tick of the update. */
  lemma OnTime(stands: nat, u: nat)
    requires stands <= u <= stands + INT_MAX
    ensures Due(Wrap(stands, UINT32_RANGE), u) == stands
  {
    WrapDifference(u, stands);
    DueBehind(Wrap(stands, UINT32_RANGE), u);
  }

  lemma StillDue(u: nat)
    requires 170000000 <= u <= 1700000000
    ensures Due(1700000000, u) == 1700000000
  {
    WrapOnce(u - 1700000000, UINT32_RANGE);
  }

  lemma AdvanceLast(readLimit: int, writeLimit: int, last: nat, cfg: Cfg, now: nat)
    requires cfg.Ok()
    ensures var tick := GetTick(now, cfg.msecPerTick);
      && Advance(Level(readLimit, last), cfg.read.maximum, cfg.read.rate, tick).last in {last, tick}
  {
  }

  /** What happens to the bucket of a bufferevent, and the reasons besides the bucket that come and go. */
  datatype Op =
    | Configure(cfg: Cfg?, now: nat)
    | Moved(isWrite: bool, bytes: int)
    | Charged(isWrite: bool, bytes: int)
    | Timer(now: nat)
    | Asked(now: nat)
    | Held(isWrite: bool, why: Why)
    | Released(isWrite: bool, why: Why)
  {
    predicate Timed() {
      Configure? || Timer? || Asked?
    }
  }

  predicate OpsOk(ops: seq<Op>) {
    forall i :: 0 <= i < |ops| ==> ops[i].Configure? && ops[i].cfg != null ==> ops[i].cfg.Ok()
  }

  /** The last time that a run looked at the clock. */
  function Latest(ops: seq<Op>, start: nat): nat {
    if ops == [] then start
    else if ops[|ops| - 1].Timed() then ops[|ops| - 1].now
    else Latest(ops[..|ops| - 1], start)
  }

  /** All configurations have ticks of `per` milliseconds, and the clock does not go back. */
  predicate Steady(ops: seq<Op>, per: nat, start: nat) {
    forall i :: 0 <= i < |ops| ==>
      && (ops[i].Configure? && ops[i].cfg != null ==> ops[i].cfg.msecPerTick == per)
      && (ops[i].Timed() ==> Latest(ops[..i], start) <= ops[i].now)
  }

  lemma StepSteady(ops: seq<Op>, i: nat, per: nat, start: nat)
    requires Steady(ops, per, start) && i < |ops| && per > 0
    ensures Latest(ops[..i], start) / per <= Latest(ops[..i + 1], start) / per
    ensures ops[i].Timed() ==> Latest(ops[..i + 1], start) == ops[i].now
    ensures ops[i].Configure? && ops[i].cfg != null ==> ops[i].cfg.msecPerTick == per
  {
    assert ops[..i + 1][..i] == ops[..i];
    Later(Latest(ops[..i], start), Latest(ops[..i + 1], start), per);
  }

  lemma Shrinks(k: int, n: int)
    requires n > 0
    ensures k < 0 ==> k * n <= -n
  {
  }

  lemma Later(a: nat, b: nat, per: nat)
    requires a <= b && per > 0
    ensures a / per <= b / per
  {
    var k := b / per - a / per;
    assert b - a == k * per + (b % per - a % per);
    Shrinks(k, per);
  }

  lemma Grows(rate: nat, n: nat)
    ensures n * rate >= 0
  {
  }

  /** One direction of a group. */
  class GroupSide {
    var limit: int
    var suspended: bool
    var pending: bool

    constructor (limit: int)
      ensures this.limit == limit && !suspended && !pending
    {
      this.limit, suspended, pending := limit, false, false;
    }
  }

  /** struct bufferevent_rate_limit_group; its timer is always scheduled. */
  class Group {
    var members: seq<Bufferevent>
    const read: GroupSide
    const write: GroupSide
    var readRate: Rate
    var writeRate: Rate
    var configuredMinShare: nat
    var minShare: nat
    var last: nat
    var msecPerTick: nat

    /** bufferevent_rate_limit_group_new. */
    constructor (cfg: Cfg, now: nat)
      requires cfg.Ok()
      ensures Valid() && members == [] && read.limit == cfg.read.rate && write.limit == cfg.write.rate
      ensures msecPerTick == cfg.msecPerTick && last == GetTick(now, msecPerTick)
      ensures minShare == Min(64, Min(cfg.read.rate, cfg.write.rate))
    {
      members := [];
      read := new GroupSide(cfg.read.rate);
      write := new GroupSide(cfg.write.rate);
      readRate, writeRate, last, msecPerTick := cfg.read, cfg.write, GetTick(now, cfg.msecPerTick), cfg.msecPerTick;
      minShare, configuredMinShare := 0, 0;
      new;
      SetMinShare(64);
    }

    function Of(isWrite: bool): GroupSide {
      if isWrite then write else read
    }

    function RateOf(isWrite: bool): Rate
      reads this
    {
      if isWrite then writeRate else readRate
    }

    ghost function Sides(): set<Side>
      reads this
    {
      (set m | m in members :: m.read) + (set m | m in members :: m.write)
    }

    ghost predicate Limits()
      reads this, read, write
    {
      && read != write && last < UINT32_RANGE && 0 < msecPerTick < UINT32_RANGE && RateOk(readRate) && RateOk(writeRate)
      && minShare <= readRate.rate && minShare <= writeRate.rate && configuredMinShare <= SSIZE_MAX
      && SideOk(read, readRate) && SideOk(write, writeRate)
    }

    /** Members are left to be resumed only after a suspension ended. */
    static ghost predicate SideOk(s: GroupSide, r: Rate)
      reads s
    {
      Ssize(s.limit) && s.limit <= r.maximum && (s.pending ==> !s.suspended)
    }

    /** The members know their group and share no fields. */
    ghost predicate Joined()
      reads this, members`group
    {
      && (forall i :: 0 <= i < |members| ==> members[i].group == this)
      && Apart(members)
    }

    /**
     * A member that is suspended for the group will be resumed: the group is suspended, or will try again in the next
     * tick.
     */
    ghost predicate WillResume(isWrite: bool)
      reads this, Of(isWrite), Sides()`suspended
    {
      forall m :: m in members && GroupBandwidth in m.Of(isWrite).suspended ==>
        Of(isWrite).suspended || Of(isWrite).pending
    }

    ghost predicate Valid()
      reads this, read, write, members`group, Sides()`suspended
    {
      Limits() && Joined() && WillResume(false) && WillResume(true)
    }

    ghost predicate AllValid()
      reads this, members, Sides()
    {
      forall i :: 0 <= i < |members| ==> members[i].Valid()
    }

    lemma InSides(i: nat, isWrite: bool)
      requires i < |members|
      ensures members[i].Of(isWrite) in Sides() && members[i].Opposite(isWrite) in Sides()
    {
    }

    /**
     * bufferevent_get_rlim_max_ for every member: together they may not move more than the bucket of the group holds,
     * or the minimal share of each if that is more.
     */
    method AllMax(isWrite: bool, now: nat) returns (maxes: seq<int>)
      requires Valid() && AllValid()
      modifies members`last, set m | m in members :: m.read, set m | m in members :: m.write
      ensures Valid() && AllValid() && |maxes| == |members|
      ensures Of(isWrite).suspended ==> forall i :: 0 <= i < |maxes| ==> maxes[i] == 0
      ensures members != [] ==> Sum(maxes) <= Max(Of(isWrite).limit, minShare * |members|)
    {
      hide Limits, Granted, Bufferevent.Valid, Apart, Sum;
      maxes := [];
      var i := 0;
      while i < |members|
        invariant 0 <= i == |maxes| <= |members| && Valid() && AllValid()
        invariant forall j :: 0 <= j < i ==> maxes[j] >= 0 && (Of(isWrite).suspended ==> maxes[j] == 0)
        invariant !Of(isWrite).suspended ==>
          forall j :: 0 <= j < i ==> maxes[j] * |members| <= Max(Of(isWrite).limit, minShare * |members|)
      {
        var max := MemberMax(i, isWrite, now);
        maxes := maxes + [max];
        i := i + 1;
      }
      if members != [] {
        AddUp(maxes, isWrite);
      }
    }

    method MemberMax(i: nat, isWrite: bool, now: nat) returns (max: int)
      requires Valid() && AllValid() && i < |members|
      modifies {members[i]}`last, members[i].read, members[i].write
      ensures Valid() && AllValid() && max >= 0 && (Of(isWrite).suspended ==> max == 0)
      ensures !Of(isWrite).suspended ==> max * |members| <= Max(Of(isWrite).limit, minShare * |members|)
    {
      hide Limits, Apart;
      ghost var m := members[i];
      assert m.Valid();
      OthersApart(members, i);
      max := members[i].RlimMax(isWrite, now);
    }

    lemma AddUp(maxes: seq<int>, isWrite: bool)
      requires |maxes| == |members| > 0
      requires forall j :: 0 <= j < |maxes| ==> maxes[j] >= 0 && (Of(isWrite).suspended ==> maxes[j] == 0)
      requires !Of(isWrite).suspended ==>
        forall j :: 0 <= j < |maxes| ==> maxes[j] * |members| <= Max(Of(isWrite).limit, minShare * |members|)
      ensures Sum(maxes) <= Max(Of(isWrite).limit, minShare * |members|)
    {
      var total := Max(Of(isWrite).limit, minShare * |members|);
      MoreEach(0, minShare, |members|);
      SumWithin(maxes, if Of(isWrite).suspended then 0 else total);
    }

    /** Suspends or resumes one member. */
    method Change(isWrite: bool, i: nat, suspend: bool)
      requires Joined() && AllValid() && i < |members|
      modifies members[i].Of(isWrite)`suspended, members[i].Of(isWrite)`active
      ensures AllValid()
      ensures members[i].Of(isWrite).suspended ==
        if suspend then old(members[i].Of(isWrite).suspended) + {GroupBandwidth}
        else old(members[i].Of(isWrite).suspended) - {GroupBandwidth}
      ensures forall j :: 0 <= j < |members| && j != i ==>
        members[j].Of(isWrite).suspended == old(members[j].Of(isWrite).suspended)
      ensures forall j :: 0 <= j < |members| ==>
        members[j].Opposite(isWrite).suspended == old(members[j].Opposite(isWrite).suspended)
    {
      ghost var m := members[i];
      assert m.Valid();
      OtherSides(members, i, isWrite);
      if suspend {
        members[i].Of(isWrite).Suspend(GroupBandwidth);
      } else {
        members[i].Of(isWrite).Unsuspend(GroupBandwidth);
      }
      assert m.Valid();
    }

    method Missed(m: Bufferevent, isWrite: bool)
      requires Valid() && m in members && m.Valid() && Of(isWrite).suspended
      modifies m.Of(isWrite)`suspended, m.Of(isWrite)`active
      ensures Valid() && m.Valid() && m.Of(isWrite).suspended == old(m.Of(isWrite).suspended) + {GroupBandwidth}
    {
      hide Limits;
      m.Of(isWrite).Suspend(GroupBandwidth);
    }

    /** bev_group_suspend_reading_ and bev_group_suspend_writing_; the members in `busy` cannot be locked. */
    method Suspend(isWrite: bool, busy: set<Bufferevent>)
      requires Joined() && AllValid()
      modifies Of(isWrite)`suspended, Of(isWrite)`pending, Sides()`suspended, Sides()`active
      ensures Of(isWrite).suspended && !Of(isWrite).pending && AllValid()
      ensures forall m :: m in members ==> m.Opposite(isWrite).suspended == old(m.Opposite(isWrite).suspended)
      ensures forall m :: m in members ==>
        m.Of(isWrite).suspended == old(m.Of(isWrite).suspended) + (if m !in busy then {GroupBandwidth} else {})
    {
      hide Bufferevent.Valid, AllValid, Apart, Bufferevent.Of, Bufferevent.Opposite;
      Of(isWrite).suspended := true;
      Of(isWrite).pending := false;
      var i := 0;
      while i < |members|
        invariant 0 <= i <= |members| && AllValid() && Of(isWrite).suspended && !Of(isWrite).pending
        invariant forall j :: 0 <= j < |members| ==>
          members[j].Opposite(isWrite).suspended == old(members[j].Opposite(isWrite).suspended)
        invariant forall j :: 0 <= j < |members| ==>
          (members[j].Of(isWrite).suspended ==
           old(members[j].Of(isWrite).suspended) + (if j < i && members[j] !in busy then {GroupBandwidth} else {}))
      {
        InSides(i, isWrite);
        if members[i] !in busy {
          Change(isWrite, i, true);
        }
        i := i + 1;
      }
    }

    /**
     * bev_group_unsuspend_reading_ and bev_group_unsuspend_writing_, with FOREACH_RANDOM_ORDER starting at the member
     * at `which`: wherever it starts, each member that can be locked goes on, and what is left is remembered.
     */
    method Unsuspend(isWrite: bool, which: nat, busy: set<Bufferevent>)
      requires Joined() && AllValid() && (members == [] || which < |members|)
      modifies Of(isWrite)`suspended, Of(isWrite)`pending, Sides()`suspended, Sides()`active
      ensures !Of(isWrite).suspended && AllValid()
      ensures Of(isWrite).pending <==> exists m :: m in members && m in busy
      ensures forall m :: m in members ==> m.Opposite(isWrite).suspended == old(m.Opposite(isWrite).suspended)
      ensures forall m :: m in members ==>
        m.Of(isWrite).suspended == old(m.Of(isWrite).suspended) - (if m !in busy then {GroupBandwidth} else {})
    {
      hide Bufferevent.Valid, AllValid, Apart, Bufferevent.Of, Bufferevent.Opposite;
      Of(isWrite).suspended := false;
      var first := if members == [] then 0 else which;
      var again := Resume(isWrite, first, |members|, busy);
      var more := Resume(isWrite, 0, first, busy);
      assert again || more <==> exists j :: 0 <= j < |members| && members[j] in busy;
      Of(isWrite).pending := again || more;
    }

    /** The block of FOREACH_RANDOM_ORDER for the members from `lo` to `hi`. */
    method Resume(isWrite: bool, lo: nat, hi: nat, busy: set<Bufferevent>) returns (again: bool)
      requires Joined() && AllValid() && lo <= hi <= |members|
      modifies Sides()`suspended, Sides()`active
      ensures AllValid() && (again <==> exists j :: lo <= j < hi && members[j] in busy)
      ensures forall j :: 0 <= j < |members| ==>
        members[j].Opposite(isWrite).suspended == old(members[j].Opposite(isWrite).suspended)
      ensures forall j :: 0 <= j < |members| ==>
        (members[j].Of(isWrite).suspended ==
         old(members[j].Of(isWrite).suspended) -
         (if lo <= j < hi && members[j] !in busy then {GroupBandwidth} else {}))
    {
      hide Bufferevent.Valid, AllValid, Apart, Bufferevent.Of, Bufferevent.Opposite;
      again := false;
      var i := lo;
      while i < hi
        invariant lo <= i <= hi && AllValid()
        invariant again <==> exists j :: lo <= j < i && members[j] in busy
        invariant forall j :: 0 <= j < |members| ==>
          members[j].Opposite(isWrite).suspended == old(members[j].Opposite(isWrite).suspended)
        invariant forall j :: 0 <= j < |members| ==>
          (members[j].Of(isWrite).suspended ==
           old(members[j].Of(isWrite).suspended) -
           (if lo <= j < i && members[j] !in busy then {GroupBandwidth} else {}))
      {
        InSides(i, isWrite);
        if members[i] !in busy {
          Change(isWrite, i, false);
        } else {
          again := true;
        }
        i := i + 1;
      }
    }

    /**
     * The part of bufferevent_decrement_read_buckets_ and bufferevent_decrement_write_buckets_ that concerns the group.
     */
    method Take(isWrite: bool, bytes: int, which: nat, busy: set<Bufferevent>)
      requires Valid() && AllValid() && (members == [] || which < |members|)
      requires -SSIZE_MAX - 1 <= Of(isWrite).limit - bytes <= RateOf(isWrite).maximum
      modifies Of(isWrite), Sides()`suspended, Sides()`active
      ensures Valid() && AllValid() && Of(isWrite).limit == old(Of(isWrite).limit) - bytes
      ensures Of(isWrite).suspended <==> Of(isWrite).limit <= 0
      ensures forall m :: m in members ==>
        m.Of(isWrite).suspended - {GroupBandwidth} == old(m.Of(isWrite).suspended) - {GroupBandwidth}
      ensures Of(isWrite).pending <==>
        && Of(isWrite).limit > 0
        && if old(Of(isWrite).suspended) then exists m :: m in members && m in busy else old(Of(isWrite).pending)
    {
      hide AllValid, Bufferevent.Valid, Apart;
      Of(isWrite).limit := Of(isWrite).limit - bytes;
      if Of(isWrite).limit <= 0 {
        Suspend(isWrite, busy);
      } else if Of(isWrite).suspended {
        Unsuspend(isWrite, which, busy);
      }
    }

    /** bufferevent_rate_limit_group_decrement_read and bufferevent_rate_limit_group_decrement_write. */
    method DecrementLimit(isWrite: bool, bytes: int, which: nat, busy: set<Bufferevent>)
      requires Valid() && AllValid() && (members == [] || which < |members|)
      requires -SSIZE_MAX - 1 <= Of(isWrite).limit - bytes <= RateOf(isWrite).maximum
      modifies Of(isWrite), Sides()`suspended, Sides()`active
      ensures Valid() && AllValid() && Of(isWrite).limit == old(Of(isWrite).limit) - bytes
      ensures Of(isWrite).suspended <==>
        if Of(isWrite).limit <= 0 then old(Of(isWrite).limit > 0 || Of(isWrite).suspended)
          else old(Of(isWrite).limit > 0 && Of(isWrite).suspended)
    {
      hide AllValid, Bufferevent.Valid, Apart;
      var oldLimit := Of(isWrite).limit;
      Of(isWrite).limit := Of(isWrite).limit - bytes;
      if oldLimit > 0 && Of(isWrite).limit <= 0 {
        Suspend(isWrite, busy);
      } else if oldLimit <= 0 && Of(isWrite).limit > 0 {
        Unsuspend(isWrite, which, busy);
      }
    }

    /** ev_token_bucket_update_ for the bucket of the group. */
    method UpdateBucket(tick: nat)
      requires Limits() && tick < UINT32_RANGE
      modifies `last, read`limit, write`limit
      ensures Limits()
      ensures Level(read.limit, last) ==
        Advance(Level(old(read.limit), old(last)), readRate.maximum, readRate.rate, tick)
      ensures Level(write.limit, last) ==
        Advance(Level(old(write.limit), old(last)), writeRate.maximum, writeRate.rate, tick)
      ensures read.limit >= old(read.limit) && write.limit >= old(write.limit)
    {
      hide Refill, Wrap;
      var ticks := TicksTo(last, tick);
      if ticks == 0 {
        return;
      }
      RefillIsMin(readRate.maximum, readRate.rate, read.limit, ticks);
      RefillIsMin(writeRate.maximum, writeRate.rate, write.limit, ticks);
      Grows(readRate.rate, ticks);
      Grows(writeRate.rate, ticks);
      read.limit := Refill(readRate.maximum, readRate.rate, read.limit, ticks);
      write.limit := Refill(writeRate.maximum, writeRate.rate, write.limit, ticks);
      last := tick;
    }

    /** bev_group_refill_callback_: when the limit allows it, every member that can be locked goes on. */
    method RefillCallback(now: nat, whichRead: nat, whichWrite: nat, busy: set<Bufferevent>)
      requires Valid() && AllValid() && (members == [] || (whichRead < |members| && whichWrite < |members|))
      modifies `last, read, write, Sides()`suspended, Sides()`active
      ensures Valid() && AllValid()
      ensures var tick := GetTick(now, msecPerTick);
        && Level(read.limit, last) == Advance(Level(old(read.limit), old(last)), readRate.maximum, readRate.rate, tick)
        && Level(write.limit, last) ==
             Advance(Level(old(write.limit), old(last)), writeRate.maximum, writeRate.rate, tick)
      ensures read.limit >= old(read.limit) && write.limit >= old(write.limit)
      ensures read.suspended <==> old(read.suspended) && read.limit < minShare
      ensures write.suspended <==> old(write.suspended) && write.limit < minShare
      ensures forall m :: m in members && m !in busy ==>
        && (GroupBandwidth in m.read.suspended ==> read.suspended)
        && (GroupBandwidth in m.write.suspended ==> write.suspended)
    {
      hide Bufferevent.Valid, Apart;
      UpdateBucket(GetTick(now, msecPerTick));
      Release(false, whichRead, busy);
      Release(true, whichWrite, busy);
    }

    method Release(isWrite: bool, which: nat, busy: set<Bufferevent>)
      requires Valid() && AllValid() && (members == [] || which < |members|)
      modifies Of(isWrite)`suspended, Of(isWrite)`pending, Sides()`suspended, Sides()`active
      ensures Valid() && AllValid()
      ensures Of(isWrite).suspended <==> old(Of(isWrite).suspended) && Of(isWrite).limit < minShare
      ensures forall m :: m in members && m !in busy && GroupBandwidth in m.Of(isWrite).suspended ==>
        Of(isWrite).suspended
      ensures forall m :: m in members ==> m.Opposite(isWrite).suspended == old(m.Opposite(isWrite).suspended)
    {
      hide AllValid, Bufferevent.Valid, Apart;
      if Of(isWrite).pending || (Of(isWrite).suspended && Of(isWrite).limit >= minShare) {
        Unsuspend(isWrite, which, busy);
      }
    }

    /**
     * The timer runs out at `times`; the members in `busy[i]` cannot be locked at time `i`. A suspension has ended
     * exactly when the bucket reached the minimal share, and then every member that could be locked the last time goes
     * on.
     */
    method WaitForShare(times: seq<nat>, firsts: seq<nat>, busy: seq<set<Bufferevent>>)
      requires Valid() && AllValid() && |firsts| == |busy| == |times| && times != []
      requires members == [] || forall i :: 0 <= i < |times| ==> firsts[i] < |members|
      modifies `last, read, write, Sides()`suspended, Sides()`active
      ensures Valid() && AllValid()
      ensures var us := Ticks(times, msecPerTick);
        && Level(read.limit, last) == Waited(Level(old(read.limit), old(last)), readRate.maximum, readRate.rate, us)
        && Level(write.limit, last) == Waited(Level(old(write.limit), old(last)), writeRate.maximum, writeRate.rate, us)
      ensures read.suspended <==> old(read.suspended) && read.limit < minShare
      ensures write.suspended <==> old(write.suspended) && write.limit < minShare
      ensures var us := Ticks(times, msecPerTick);
        Following(us) ==>
          var due, u := Due(old(last), us[0]), us[|us| - 1];
          && read.limit == Gain(old(read.limit), readRate.maximum, readRate.rate, due, u)
          && write.limit == Gain(old(write.limit), writeRate.maximum, writeRate.rate, due, u)
      ensures forall m :: m in members && m !in busy[|busy| - 1] ==>
        && (GroupBandwidth in m.read.suspended ==> read.suspended)
        && (GroupBandwidth in m.write.suspended ==> write.suspended)
    {
      hide AllValid, Bufferevent.Valid, Apart, Advance, Following, Due, GetTick, Gain;
      ghost var us := Ticks(times, msecPerTick);
      var i := 0;
      while i < |times|
        invariant Valid() && AllValid() && 0 <= i <= |times|
        invariant Level(read.limit, last) ==
          Waited(Level(old(read.limit), old(last)), readRate.maximum, readRate.rate, us[..i])
        invariant Level(write.limit, last) ==
          Waited(Level(old(write.limit), old(last)), writeRate.maximum, writeRate.rate, us[..i])
        invariant read.suspended <==> old(read.suspended) && (i == 0 || read.limit < minShare)
        invariant write.suspended <==> old(write.suspended) && (i == 0 || write.limit < minShare)
        invariant i > 0 ==> forall m :: m in members && m !in busy[i - 1] ==>
          && (GroupBandwidth in m.read.suspended ==> read.suspended)
          && (GroupBandwidth in m.write.suspended ==> write.suspended)
      {
        WaitedOn(Level(old(read.limit), old(last)), readRate, times, msecPerTick, i);
        WaitedOn(Level(old(write.limit), old(last)), writeRate, times, msecPerTick, i);
        RefillCallback(times[i], firsts[i], firsts[i], busy[i]);
        i := i + 1;
      }
      assert us[..i] == us;
      if Following(us) {
        WaitExact(Level(old(read.limit), old(last)), readRate.maximum, readRate.rate, us);
        WaitExact(Level(old(write.limit), old(last)), writeRate.maximum, writeRate.rate, us);
      }
    }

    /**
     * bufferevent_rate_limit_group_set_cfg; the tick of the last update stays, even if ticks have another length now.
     */
    method SetCfg(cfg: Cfg)
      requires Valid() && cfg.Ok()
      modifies `readRate, `writeRate, `msecPerTick, `minShare, `configuredMinShare, read`limit, write`limit
      ensures
        && Valid()
        && readRate == cfg.read
        && writeRate == cfg.write
        && msecPerTick == cfg.msecPerTick
        && last == old(last)
      ensures
        && read.limit == Min(old(read.limit), cfg.read.maximum)
        && write.limit == Min(old(write.limit), cfg.write.maximum)
      ensures
        && minShare == Min(configuredMinShare, Min(cfg.read.rate, cfg.write.rate))
        && configuredMinShare == old(configuredMinShare)
    {
      readRate, writeRate, msecPerTick := cfg.read, cfg.write, cfg.msecPerTick;
      if read.limit > cfg.read.maximum {
        read.limit := cfg.read.maximum;
      }
      if write.limit > cfg.write.maximum {
        write.limit := cfg.write.maximum;
      }
      SetMinShare(configuredMinShare);
    }

    /** bufferevent_add_to_rate_limit_group for a bufferevent without a group. */
    method Add(bev: Bufferevent)
      requires Valid() && AllValid() && bev.Valid() && bev.group == null && Apart([bev] + members)
      requires GroupBandwidth !in bev.read.suspended && GroupBandwidth !in bev.write.suspended
      modifies `members, bev`group, bev`limited, bev.read, bev.write
      ensures Valid() && AllValid() && members == [bev] + old(members) && bev.group == this && bev.limited
      ensures bev.read.suspended == old(bev.read.suspended) + if read.suspended then {GroupBandwidth} else {}
      ensures bev.write.suspended == old(bev.write.suspended) + if write.suspended then {GroupBandwidth} else {}
    {
      hide Bufferevent.Valid, Apart, AllValid, Limits;
      Link(bev);
      Newest(false);
      Newest(true);
    }

    /**
     * bufferevent_add_to_rate_limit_group for any bufferevent: a member stays, and a member of another group leaves
     * that first.
     */
    method Join(bev: Bufferevent, ghost k: nat)
      requires Valid() && AllValid() && bev.Valid() && (bev.group != this ==> Apart([bev] + members))
      requires bev.group == null ==> GroupBandwidth !in bev.read.suspended && GroupBandwidth !in bev.write.suspended
      requires bev.group == this ==> bev in members
      requires bev.group != null && bev.group != this ==>
        bev.group.Valid() && bev.group.AllValid() && k < |bev.group.members| && bev.group.members[k] == bev
      modifies `members, bev`group, bev`limited, bev.read, bev.write
      modifies if bev.group == null then {} else {bev.group}
      ensures Valid() && AllValid() && bev in members && bev.group == this
      ensures old(bev.group) != null && old(bev.group) != this ==>
        var g := old(bev.group); g.Valid() && g.AllValid() && g.members == old(g.members)[..k] + old(g.members)[k + 1..]
      ensures old(bev.group) == this ==> members == old(members) && bev.read.suspended == old(bev.read.suspended)
      ensures old(bev.group) != this ==>
        && members == [bev] + old(members)
        && bev.read.suspended ==
             old(bev.read.suspended) - {GroupBandwidth} + (if read.suspended then {GroupBandwidth} else {})
        && bev.write.suspended ==
             old(bev.write.suspended) - {GroupBandwidth} + (if write.suspended then {GroupBandwidth} else {})
    {
      hide Apart, Limits;
      if bev.group == this {
        return;
      }
      FirstApart(bev, members);
      if bev.group != null {
        bev.group.Remove(bev, k);
      }
      Add(bev);
    }

    method Link(bev: Bufferevent)
      requires Valid() && AllValid() && bev.Valid() && bev.group == null && Apart([bev] + members)
      requires GroupBandwidth !in bev.read.suspended && GroupBandwidth !in bev.write.suspended
      modifies `members, bev`group, bev`limited
      ensures Valid() && AllValid() && members == [bev] + old(members) && bev.group == this && bev.limited
    {
      hide Apart;
      FirstApart(bev, members);
      ghost var was := members;
      bev.limited := true;
      bev.group := this;
      members := [bev] + members;
      assert AllValid() by {
        assert forall i :: 0 < i < |members| ==> members[i] == was[i - 1];
      }
      assert forall m: Bufferevent :: m in members ==> m == bev || m in was;
    }

    /** The member that came last is suspended with the group. */
    method Newest(isWrite: bool)
      requires Valid() && AllValid() && members != []
      modifies members[0].Of(isWrite)`suspended, members[0].Of(isWrite)`active
      ensures
        && Valid()
        && AllValid()
        && members[0].Opposite(isWrite).suspended == old(members[0].Opposite(isWrite).suspended)
      ensures members[0].Of(isWrite).suspended ==
        old(members[0].Of(isWrite).suspended) + if Of(isWrite).suspended then {GroupBandwidth} else {}
    {
      hide Bufferevent.Valid, Apart, AllValid, Limits;
      if Of(isWrite).suspended {
        Change(isWrite, 0, true);
      }
    }

    /** bufferevent_remove_from_rate_limit_group for the member at `k`. */
    method Remove(bev: Bufferevent, ghost k: nat)
      requires Valid() && AllValid() && k < |members| && members[k] == bev
      modifies `members, bev`group, bev.read`suspended, bev.read`active, bev.write`suspended, bev.write`active
      ensures Valid() && AllValid() && members == old(members)[..k] + old(members)[k + 1..] && bev.group == null
      ensures bev.Valid() && bev.read.suspended == old(bev.read.suspended) - {GroupBandwidth}
      ensures bev.write.suspended == old(bev.write.suspended) - {GroupBandwidth}
      ensures bev !in members && bev.read !in Sides() && bev.write !in Sides()
    {
      hide Apart, Limits, AllValid;
      Unlink(bev, k);
      bev.read.Unsuspend(GroupBandwidth);
      bev.write.Unsuspend(GroupBandwidth);
    }

    method Unlink(bev: Bufferevent, ghost k: nat)
      requires Valid() && AllValid() && k < |members| && members[k] == bev
      modifies `members, bev`group
      ensures Valid() && AllValid() && members == old(members)[..k] + old(members)[k + 1..]
      ensures bev.Valid() && bev.group == null && bev !in members && bev.read !in Sides() && bev.write !in Sides()
    {
      ghost var was := members;
      assert bev.Valid();
      WithoutApart(members, k);
      bev.group := null;
      var i := 0;
      while members[i] != bev
        invariant 0 <= i <= k
        decreases k - i
      {
        i := i + 1;
      }
      members := members[..i] + members[i + 1..];
      assert members == was[..k] + was[k + 1..];
      assert forall m: Bufferevent :: m in members ==> m in was && m != bev;
      assert Limits() && Joined();
    }

    /** bufferevent_rate_limit_group_set_min_share. */
    method SetMinShare(share: nat)
      modifies `configuredMinShare, `minShare
      ensures share <= SSIZE_MAX ==>
        configuredMinShare == share && minShare == Min(share, Min(readRate.rate, writeRate.rate))
      ensures share > SSIZE_MAX ==> configuredMinShare == old(configuredMinShare) && minShare == old(minShare)
    {
      if share > SSIZE_MAX {
        return;
      }
      configuredMinShare := share;
      var s := share;
      if s > readRate.rate {
        s := readRate.rate;
      }
      if s > writeRate.rate {
        s := writeRate.rate;
      }
      minShare := s;
    }
  }

  ghost predicate Apart(ms: seq<Bufferevent>) {
    && (forall i :: 0 <= i < |ms| ==> ms[i].read != ms[i].write)
    && forall i, j, b, c :: 0 <= i < j < |ms| ==> ms[i].Of(b) != ms[j].Of(c)
  }

  lemma OtherSides(ms: seq<Bufferevent>, i: nat, isWrite: bool)
    requires Apart(ms) && i < |ms|
    ensures forall j :: 0 <= j < |ms| && j != i ==> ms[j].Of(isWrite) != ms[i].Of(isWrite)
    ensures forall j :: 0 <= j < |ms| ==> ms[j].Opposite(isWrite) != ms[i].Of(isWrite)
    ensures forall j :: 0 <= j < |ms| && j != i ==> ms[j].read != ms[i].Of(isWrite) && ms[j].write != ms[i].Of(isWrite)
  {
    forall j | 0 <= j < |ms| ensures ms[j].Opposite(isWrite) != ms[i].Of(isWrite)
      ensures j != i ==>
        ms[j].Of(isWrite) != ms[i].Of(isWrite) && ms[j].read != ms[i].Of(isWrite) && ms[j].write != ms[i].Of(isWrite)
    {
      assert
        && ms[j].Opposite(isWrite) == ms[j].Of(!isWrite)
        && ms[j].read == ms[j].Of(false)
        && ms[j].write == ms[j].Of(true);
    }
  }

  lemma OthersApart(ms: seq<Bufferevent>, i: nat)
    requires Apart(ms) && i < |ms|
    ensures forall j :: 0 <= j < |ms| && j != i ==>
      && ms[j] != ms[i]
      && ms[j].read != ms[i].read
      && ms[j].read != ms[i].write
      && ms[j].write != ms[i].read
      && ms[j].write != ms[i].write
  {
    OtherSides(ms, i, false);
    OtherSides(ms, i, true);
  }

  lemma FirstApart(bev: Bufferevent, ms: seq<Bufferevent>)
    requires Apart([bev] + ms)
    ensures bev.read != bev.write && bev !in ms
    ensures forall m :: m in ms ==>
      m.read != bev.read && m.read != bev.write && m.write != bev.read && m.write != bev.write
  {
    var all := [bev] + ms;
    forall i | 0 <= i < |ms|
      ensures ms[i].read != bev.read && ms[i].read != bev.write && ms[i].write != bev.read && ms[i].write != bev.write
    {
      assert all[0].Of(false) != all[i + 1].Of(false) && all[0].Of(false) != all[i + 1].Of(true);
      assert all[0].Of(true) != all[i + 1].Of(false) && all[0].Of(true) != all[i + 1].Of(true);
    }
    assert all[0].read != all[0].write;
  }

  lemma WithoutApart(ms: seq<Bufferevent>, k: nat)
    requires Apart(ms) && k < |ms|
    ensures Apart(ms[..k] + ms[k + 1..]) && Apart([ms[k]] + (ms[..k] + ms[k + 1..]))
    ensures forall i :: 0 <= i < |ms| && i != k ==> ms[i] != ms[k]
    ensures forall m :: m in ms[..k] + ms[k + 1..] ==> m in ms && m != ms[k]
    ensures forall m :: m in ms[..k] + ms[k + 1..] ==>
      m.read != ms[k].read && m.read != ms[k].write && m.write != ms[k].read && m.write != ms[k].write
  {
    var rest := ms[..k] + ms[k + 1..];
    forall i | 0 <= i < |ms| && i != k ensures ms[i] != ms[k] {
      assert ms[i].Of(true) != ms[k].Of(true);
    }
    assert forall i :: 0 <= i < |rest| ==> rest[i] == ms[if i < k then i else i + 1];
    var all := [ms[k]] + rest;
    assert Apart(all) by {
      assert forall i :: 0 < i < |all| ==> all[i] == ms[if i - 1 < k then i - 1 else i];
    }
    FirstApart(ms[k], rest);
  }
}
