/**
  Job identifiers (src/work.cpp, `generateJobId`): `job<pid>_<micros>_<counter>`,
  where the counter is one process-wide atomic 64-bit value that every call
  fetches and increments.
 */
module JobIds {
  import opened Text

  /** A reading of the steady clock in microseconds: a non-negative 64-bit signed count. */
  type Micros = n: nat | n < 0x8000_0000_0000_0000

  function JobId(pid: nat, now: nat, counter: nat): string {
    "job" + Decimal(pid) + "_" + Decimal(now) + "_" + Decimal(counter)
  }

  predicate NoUnderscore(s: string) { forall i :: 0 <= i < |s| ==> s[i] != '_' }

  lemma DecimalNoUnderscore(n: nat)
    ensures NoUnderscore(Decimal(n))
  {
  }

  /** Joining two underscore-free words with `_` can be undone. */
  lemma SplitAtUnderscore(a1: string, b1: string, a2: string, b2: string)
    requires NoUnderscore(a1) && NoUnderscore(a2)
    requires a1 + "_" + b1 == a2 + "_" + b2
    ensures a1 == a2 && b1 == b2
  {
    var s := a1 + "_" + b1;
    assert s[|a1|] == '_';
    assert s[|a2|] == '_';
    assert |a1| == |a2|;
    assert a1 == s[..|a1|];
    assert a2 == (a2 + "_" + b2)[..|a2|];
    assert b1 == s[|a1| + 1..];
    assert b2 == (a2 + "_" + b2)[|a2| + 1..];
  }

  /** Equal identifiers come from the same process, clock reading and counter value. */
  lemma JobIdInjective(p1: nat, t1: nat, c1: nat, p2: nat, t2: nat, c2: nat)
    requires JobId(p1, t1, c1) == JobId(p2, t2, c2)
    ensures p1 == p2 && t1 == t2 && c1 == c2
  {
    DecimalNoUnderscore(p1);
    DecimalNoUnderscore(p2);
    DecimalNoUnderscore(t1);
    DecimalNoUnderscore(t2);
    JobIdFields(p1, t1, c1);
    JobIdFields(p2, t2, c2);
    var tail1 := Decimal(t1) + "_" + Decimal(c1);
    var tail2 := Decimal(t2) + "_" + Decimal(c2);
    SplitAtUnderscore(Decimal(p1), tail1, Decimal(p2), tail2);
    SplitAtUnderscore(Decimal(t1), Decimal(c1), Decimal(t2), Decimal(c2));
    DecimalInjective(p1, p2);
    DecimalInjective(t1, t2);
    DecimalInjective(c1, c2);
  }

  /** What follows the `job` prefix of an identifier. */
  lemma JobIdFields(p: nat, t: nat, c: nat)
    ensures 3 <= |JobId(p, t, c)|
    ensures JobId(p, t, c)[3..] == Decimal(p) + "_" + (Decimal(t) + "_" + Decimal(c))
  {
    var tail := Decimal(t) + "_" + Decimal(c);
    assert JobId(p, t, c) == "job" + (Decimal(p) + "_" + tail);
  }

  /** An identifier built from a counter value below `|issued|` that no earlier one shares. */
  lemma FreshId(pid: nat, issued: seq<string>, stamps: seq<nat>, now: nat, c: nat)
    requires |stamps| == |issued| == c < ULLONG_LIMIT
    requires forall k :: 0 <= k < |issued| ==> issued[k] == JobId(pid, stamps[k], k % ULLONG_LIMIT)
    ensures JobId(pid, now, c) !in issued
  {
    forall k | 0 <= k < |issued|
      ensures issued[k] != JobId(pid, now, c)
    {
      if issued[k] == JobId(pid, now, c) {
        JobIdInjective(pid, stamps[k], k % ULLONG_LIMIT, pid, now, c);
      }
    }
  }

  /** Recording one more identifier, built from the next counter value, keeps the record consistent. */
  lemma IssuedStep(pid: nat, issued: seq<string>, stamps: seq<nat>, now: nat, c: nat)
    requires |stamps| == |issued| && c == |issued| % ULLONG_LIMIT
    requires forall k :: 0 <= k < |issued| ==> issued[k] == JobId(pid, stamps[k], k % ULLONG_LIMIT)
    ensures var more, stamped := issued + [JobId(pid, now, c)], stamps + [now];
      forall k :: 0 <= k < |more| ==> more[k] == JobId(pid, stamped[k], k % ULLONG_LIMIT)
  {
  }

  /** The 64-bit counter after one more increment. */
  lemma CounterStep(n: nat)
    ensures (n + 1) % ULLONG_LIMIT == if n % ULLONG_LIMIT + 1 == ULLONG_LIMIT then 0 else n % ULLONG_LIMIT + 1
  {
  }

  /**
    The process-wide counter of `generateJobId` together with the process id.
    `issued` and `stamps` record, for the proof, every identifier handed out and
    the clock reading it was built from.
   */
  class IdGenerator {
    const pid: nat
    var counter: nat
    ghost var issued: seq<string>
    ghost var stamps: seq<nat>

    ghost predicate Valid()
      reads this
    {
      && counter < ULLONG_LIMIT
      && counter == |issued| % ULLONG_LIMIT
      && |stamps| == |issued|
      && forall k :: 0 <= k < |issued| ==> issued[k] == JobId(pid, stamps[k], k % ULLONG_LIMIT)
    }

    constructor (pid: nat)
      ensures Valid() && this.pid == pid && counter == 0 && issued == []
    {
      this.pid := pid;
      counter := 0;
      issued := [];
      stamps := [];
    }

    /**
      One call of `generateJobId` at clock reading `now`. The counter wraps at
      2^64; until it has, every identifier differs from all earlier ones.
     */
    method Next(now: Micros) returns (id: string)
      requires Valid()
      modifies this
      ensures Valid()
      ensures id == JobId(pid, now, old(counter))
      ensures counter == (old(counter) + 1) % ULLONG_LIMIT
      ensures issued == old(issued) + [id]
      ensures |old(issued)| < ULLONG_LIMIT ==> id !in old(issued)
    {
      var c := counter;
      counter := if counter + 1 == ULLONG_LIMIT then 0 else counter + 1;
      id := JobId(pid, now, c);
      CounterStep(|issued|);
      IssuedStep(pid, issued, stamps, now, c);
      if |issued| < ULLONG_LIMIT {
        FreshId(pid, issued, stamps, now, c);
      }
      issued := issued + [id];
      stamps := stamps + [now];
    }
  }
}
