/** The array of event notices in sim.c, edited in place. */
module EventSet {
  import opened Prelude
  import opened SequencingSet

  const INITIAL_CAP: nat := 16

  datatype SimError = LimitExceeded | OutOfMemory | EvtimeOfIdle

  class Events {
    var sqs: array<Notice>
    var len: nat
    var nextSeq: int

    ghost predicate Valid()
      reads this, sqs
    {
      && len <= sqs.Length <= MAX_LEN
      && SetOk(Notices())
    }

    /** The sequencing set, head first. */
    ghost function Notices(): seq<Notice>
      reads this, sqs
      requires len <= sqs.Length
    {
      sqs[..len]
    }

    constructor ()
      ensures Valid() && Notices() == [] && nextSeq == 1 && fresh(sqs)
    {
      sqs := new Notice[0];
      len, nextSeq := 0, 1;
    }

    /** Forgets every notice and the array with them. */
    method Reset()
      modifies this
      ensures Valid() && Notices() == [] && nextSeq == 1 && fresh(sqs)
    {
      sqs := new Notice[0];
      len, nextSeq := 0, 1;
    }

    /** Doubles the array, up to the limit on the set's length. */
    method Grow() returns (error: Option<SimError>)
      requires Valid() && len == sqs.Length
      modifies this`sqs
      ensures Valid() && Notices() == old(Notices())
      ensures error == None ==> len < sqs.Length && fresh(sqs)
      ensures error == None ==>
                var doubled := if old(sqs.Length) == 0 then 16 else 2 * old(sqs.Length);
                sqs.Length == if doubled > 65536 then 65536 else doubled
      ensures error != None ==> sqs == old(sqs)
      ensures error == Some(LimitExceeded) <==> old(sqs.Length) >= MAX_LEN
      ensures error != Some(EvtimeOfIdle)
    {
      hide SetOk;
      if sqs.Length >= MAX_LEN { return Some(LimitExceeded); }
      var cap := if sqs.Length == 0 then INITIAL_CAP else sqs.Length * 2;
      if cap > MAX_LEN { cap := MAX_LEN; }
      var granted := HostGrants();
      if !granted { return Some(OutOfMemory); }
      var next := new Notice[cap](_ => Notice(0.0, 0, 0));
      for i := 0 to len
        invariant next[..i] == sqs[..i]
        modifies next
      {
        next[i] := sqs[i];
      }
      sqs := next;
      return None;
    }

    /** Closes up over every notice of `process`. */
    method CancelUnlocked(process: Addr)
      requires Valid()
      modifies this`len, sqs
      ensures Valid() && Notices() == Without(old(Notices()), process)
    {
      ghost var was := Notices();
      var out, i := 0, 0;
      while i < len
        invariant 0 <= out <= i <= len
        invariant sqs[..out] == Without(was[..i], process)
        invariant forall k :: i <= k < len ==> sqs[k] == was[k]
        modifies sqs
      {
        WithoutNext(was, i, process);
        if sqs[i].process != process {
          sqs[out] := sqs[i];
          out := out + 1;
        }
        i := i + 1;
      }
      assert was[..i] == was;
      WithoutOk(was, process);
      len := out;
    }

    /** Opens a gap at `at` and puts the notice there. */
    method InsertAt(at: nat, notice: Notice)
      requires at <= len < sqs.Length
      modifies this`len, sqs
      ensures len == old(len) + 1 && Notices() == Inserted(old(Notices()), at, notice)
    {
      ghost var was := sqs[..];
      var i := len;
      while i > at
        invariant at <= i <= len
        invariant forall k :: 0 <= k < i ==> sqs[k] == was[k]
        invariant forall k :: i < k <= len ==> sqs[k] == was[k - 1]
        modifies sqs
      {
        sqs[i] := sqs[i - 1];
        i := i - 1;
      }
      sqs[at] := notice;
      len := len + 1;
    }

    /** Files (or re-files) `process` at `evtime`. */
    method InsertEvent(evtime: real, process: Addr, prior: bool) returns (error: Option<SimError>)
      requires Valid() && process != 0
      modifies this, sqs
      ensures Valid()
      ensures error == None ==>
                && Notices() == Filed(old(Notices()), Notice(evtime, process, old(nextSeq)), prior)
                && nextSeq == old(nextSeq) + 1
      ensures error == Some(LimitExceeded) <==> |Without(old(Notices()), process)| >= MAX_LEN
      ensures sqs == old(sqs) || fresh(sqs)
      ensures error != Some(EvtimeOfIdle)
    {
      hide SetOk, Without;
      ghost var was := Notices();
      CancelUnlocked(process);
      if len >= MAX_LEN { return Some(LimitExceeded); }
      if len == sqs.Length {
        error := Grow();
        if error != None { return; }
      }
      var notice := Notice(evtime, process, nextSeq);
      nextSeq := nextSeq + 1;
      var at := PlaceIn(evtime, prior);
      FiledOk(was, notice, prior);
      InsertAt(at, notice);
      error := None;
    }

    method PlaceIn(evtime: real, prior: bool) returns (at: nat)
      requires len <= sqs.Length
      ensures at == PlaceFor(Notices(), evtime, prior)
    {
      at := len;
      var i := 0;
      while i < len
        invariant 0 <= i <= len && at == len
        invariant forall k :: 0 <= k < i ==> sqs[k].evtime < evtime || (sqs[k].evtime == evtime && !prior)
      {
        if sqs[i].evtime > evtime || (prior && sqs[i].evtime == evtime) {
          at := i;
          break;
        }
        i := i + 1;
      }
    }

    /** Where a process's notice is, or the length of the set. */
    method Find(process: Addr) returns (i: nat)
      requires Valid()
      ensures match IndexOf(Notices(), process)
              case Some(k) => i == k
              case None => i == len
    {
      i := 0;
      while i < len
        invariant 0 <= i <= len
        invariant forall k :: 0 <= k < i ==> sqs[k].process != process
      {
        if sqs[i].process == process {
          FirstIndex(Notices(), process, i);
          return;
        }
        i := i + 1;
      }
    }

    method IsScheduled(process: Addr) returns (r: bool)
      requires Valid()
      ensures r <==> Scheduled(Notices(), process)
    {
      var i := Find(process);
      r := i < len;
    }

    /** Files `process` next to `other`, which the caller has found scheduled. */
    method InsertNextTo(process: Addr, other: Addr, before: bool) returns (error: Option<SimError>)
      requires Valid() && process != 0 && process != other && Scheduled(Notices(), other)
      modifies this, sqs
      ensures Valid()
      ensures error == None ==>
                && Notices() == FiledNextTo(old(Notices()), process, other, before, old(nextSeq))
                && nextSeq == old(nextSeq) + 1
      ensures error == Some(LimitExceeded) <==> |Without(old(Notices()), process)| >= MAX_LEN
      ensures error != Some(EvtimeOfIdle)
      ensures sqs == old(sqs) || fresh(sqs)
    {
      hide SetOk, Scheduled, Without;
      StillScheduled(Notices(), process, other);
      FiledNextToOk(Notices(), process, other, before, nextSeq);
      CancelUnlocked(process);
      if len == sqs.Length {
        error := Grow();
        if error != None { return; }
      }
      error := InsertBeside(process, other, before);
    }

    method InsertBeside(process: Addr, other: Addr, before: bool) returns (error: Option<SimError>)
      requires Valid() && len < sqs.Length && Scheduled(Notices(), other)
      modifies this`len, this`nextSeq, sqs
      ensures error == None && nextSeq == old(nextSeq) + 1 && len == old(len) + 1 <= sqs.Length
      ensures var s, y := old(Notices()), IndexOf(old(Notices()), other).value;
              Notices() == Inserted(s, NextTo(s, y, before, process == MAIN),
                                    Notice(s[y].evtime, process, old(nextSeq)))
    {
      hide SetOk;
      var y := Find(other);
      var at := if before then y else y + 1;
      var t := sqs[y].evtime;
      if !before && process == MAIN {
        while at < len && sqs[at].evtime == t
          invariant y < at <= len
          invariant PastTies(Notices(), at, t) == PastTies(Notices(), y + 1, t)
          modifies {}
        {
          at := at + 1;
        }
      }
      var notice := Notice(t, process, nextSeq);
      nextSeq := nextSeq + 1;
      InsertAt(at, notice);
      error := None;
    }

    method Evtime(process: Addr) returns (r: Result<real, SimError>)
      requires Valid()
      ensures match IndexOf(Notices(), process)
              case Some(i) => r == Ok(Notices()[i].evtime)
              case None => r == Err(EvtimeOfIdle)
    {
      var i := Find(process);
      r := if i < len then Ok(sqs[i].evtime) else Err(EvtimeOfIdle);
    }
  }
}
