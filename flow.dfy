/**
  Result retrieval (src/flow.cpp): read a job's output file by id, or find
  the newest completed job by the clock reading encoded in its id.
 */
module Flow {
  import opened Options
  import opened Text
  import opened Fs
  import opened JobIds

  datatype JobInference = JobInference(jobId: string, inference: string)

  /** `retrieve(id)`: the text of `output/<id>.txt`, or "" when it cannot be read. */
  function Retrieved(d: Disk, id: string): (r: JobInference)
    ensures r.jobId == id
    ensures d.IsRegular(Path(Output, TxtName(id))) ==> r.inference == d.files[Path(Output, TxtName(id))].text
    ensures !d.IsRegular(Path(Output, TxtName(id))) ==> r.inference == ""
  {
    match d.Content(Path(Output, TxtName(id)))
    case None => JobInference(id, "")
    case Some(text) => JobInference(id, text)
  }

  /**
    The clock reading of an id: what lies between its first and second
    underscore, read by `std::stoull`, for an id that starts with `job`.
   */
  function TimestampOf(stem: string): Option<nat> {
    if !StartsWith(stem, "job") then None
    else match FindChar(stem, '_', 0)
      case None => None
      case Some(u1) => ReadingAfter(stem, u1)
  }

  /** The reading between the underscore at `u1` and the next one, if there is one. */
  function ReadingAfter(stem: string, u1: nat): Option<nat>
    requires u1 < |stem|
  {
    match FindChar(stem, '_', u1 + 1)
    case None => None
    case Some(u2) => Stoull(stem[u1 + 1..u2])
  }

  /** A listed output entry that takes part in the search: its id and clock reading. */
  datatype Scored = Scored(id: string, stamp: nat)

  /** The entry's id and reading, or None when the search skips it. */
  function Score(d: Disk, name: string): Option<Scored> {
    if IsTxt(name) && d.IsRegular(Path(Output, name)) then
      match TimestampOf(Stem(name))
      case None => None
      case Some(t) => Some(Scored(Stem(name), t))
    else None
  }

  function Scores(d: Disk, listing: seq<string>): (cs: seq<Option<Scored>>)
    ensures |cs| == |listing| && forall i :: 0 <= i < |listing| ==> cs[i] == Score(d, listing[i])
  {
    seq(|listing|, i requires 0 <= i < |listing| => Score(d, listing[i]))
  }

  /** The scan of `findLatestJobId` from `cs[0]` on, with the best id and its reading so far. */
  function LatestFrom(cs: seq<Option<Scored>>, best: string, stamp: nat): (string, nat)
    decreases |cs|
  {
    if cs == [] then (best, stamp)
    else if cs[0].Some? && cs[0].value.stamp > stamp then LatestFrom(cs[1..], cs[0].value.id, cs[0].value.stamp)
    else LatestFrom(cs[1..], best, stamp)
  }

  /** `findLatestJobId()` on a listing of the output directory; "" when the directory cannot be listed. */
  function LatestJobId(d: Disk, listing: seq<string>): string {
    if Output !in d.dirs then "" else LatestFrom(Scores(d, listing), "", 0).0
  }

  /** No entry competes with a reading above `t`. */
  predicate Bounded(cs: seq<Option<Scored>>, t: nat) {
    forall i :: 0 <= i < |cs| && cs[i].Some? ==> cs[i].value.stamp <= t
  }

  /** Entry `k` is the first with reading `t`, every earlier one being lower. */
  predicate FirstWith(cs: seq<Option<Scored>>, t: nat, k: int) {
    && 0 <= k < |cs| && cs[k].Some? && cs[k].value.stamp == t
    && forall i :: 0 <= i < k && cs[i].Some? ==> cs[i].value.stamp < t
  }

  /** Entry `k` has the greatest clock reading, which is positive, and no earlier entry has it too. */
  predicate IsLatestAt(cs: seq<Option<Scored>>, k: int) {
    0 <= k < |cs| && cs[k].Some? && cs[k].value.stamp > 0 && Bounded(cs, cs[k].value.stamp) && FirstWith(cs, cs[k].value.stamp, k)
  }

  /** The scan ends with a reading no entry exceeds, and keeps its start when nothing beats it. */
  lemma {:induction false} LatestFromBound(cs: seq<Option<Scored>>, best: string, stamp: nat)
    ensures var (b, t) := LatestFrom(cs, best, stamp);
      t >= stamp && (t == stamp ==> b == best) && Bounded(cs, t)
    decreases |cs|
  {
    if cs != [] {
      var rest := cs[1..];
      assert forall i :: 1 <= i < |cs| ==> cs[i] == rest[i - 1];
      if cs[0].Some? && cs[0].value.stamp > stamp {
        LatestFromBound(rest, cs[0].value.id, cs[0].value.stamp);
      } else {
        LatestFromBound(rest, best, stamp);
      }
    }
  }

  /** When the scan raised its reading, the id it holds belongs to the first entry with that reading. */
  lemma {:induction false} LatestFromWitness(cs: seq<Option<Scored>>, best: string, stamp: nat)
    ensures var (b, t) := LatestFrom(cs, best, stamp);
      t > stamp ==> exists k :: FirstWith(cs, t, k) && b == cs[k].value.id
    decreases |cs|
  {
    if cs != [] {
      var rest := cs[1..];
      var (b, t) := LatestFrom(cs, best, stamp);
      if cs[0].Some? && cs[0].value.stamp > stamp {
        LatestFromBound(rest, cs[0].value.id, cs[0].value.stamp);
        LatestFromWitness(rest, cs[0].value.id, cs[0].value.stamp);
        if t == cs[0].value.stamp {
          assert FirstWith(cs, t, 0);
        } else {
          var k :| FirstWith(rest, t, k) && b == rest[k].value.id;
          assert FirstWith(cs, t, k + 1) by {
            assert forall i :: 1 <= i < |cs| ==> cs[i] == rest[i - 1];
          }
        }
      } else if t > stamp {
        LatestFromWitness(rest, best, stamp);
        var k :| FirstWith(rest, t, k) && b == rest[k].value.id;
        assert FirstWith(cs, t, k + 1) by {
          assert forall i :: 1 <= i < |cs| ==> cs[i] == rest[i - 1];
        }
      }
    }
  }

  /**
    `findLatestJobId` returns "" exactly when no listed output carries a positive
    clock reading, and otherwise the id of the first entry with the greatest one.
   */
  lemma LatestJobIdIsLatest(d: Disk, listing: seq<string>)
    requires Output in d.dirs
    ensures var cs := Scores(d, listing);
      LatestJobId(d, listing) == "" <==> forall i :: 0 <= i < |cs| ==> cs[i].None? || cs[i].value.stamp == 0
    ensures var cs := Scores(d, listing);
      LatestJobId(d, listing) != "" ==> exists k :: IsLatestAt(cs, k) && LatestJobId(d, listing) == cs[k].value.id
  {
    var cs := Scores(d, listing);
    LatestFromBound(cs, "", 0);
    LatestFromWitness(cs, "", 0);
    var (b, t) := LatestFrom(cs, "", 0);
    if t > 0 {
      var k :| FirstWith(cs, t, k) && b == cs[k].value.id;
      TimestampedStem(Stem(listing[k]));
      assert IsLatestAt(cs, k);
    }
  }

  lemma TimestampedStem(stem: string)
    requires TimestampOf(stem).Some?
    ensures stem != []
  {
  }

  /** `s` reads `head`, an underscore, `t` and another underscore, then anything. */
  predicate LaidOut(s: string, head: string, t: string) {
    && |head| + 1 + |t| < |s|
    && (forall i :: 0 <= i < |head| ==> s[i] == head[i])
    && s[|head|] == '_'
    && (forall i :: 0 <= i < |t| ==> s[|head| + 1 + i] == t[i])
    && s[|head| + 1 + |t|] == '_'
  }

  /** In `head_t_...`, with no underscore in `head` or `t`, the first two underscores enclose `t`. */
  lemma UnderscoreFields(s: string, head: string, t: string)
    requires LaidOut(s, head, t)
    requires NoUnderscore(head) && NoUnderscore(t)
    ensures FindChar(s, '_', 0) == Some(|head|)
    ensures FindChar(s, '_', |head| + 1) == Some(|head| + 1 + |t|)
    ensures s[|head| + 1..|head| + 1 + |t|] == t
  {
    assert forall i :: 0 <= i < |head| ==> s[i] != '_';
    FindCharAt(s, '_', 0, |head|);
    forall i | |head| + 1 <= i < |head| + 1 + |t|
      ensures s[i] != '_'
    {
      assert s[i] == t[i - |head| - 1];
    }
    FindCharAt(s, '_', |head| + 1, |head| + 1 + |t|);
  }

  /** Where the pieces of `head_t_tail` sit. */
  lemma Layout(head: string, t: string, tail: string)
    ensures LaidOut(head + "_" + t + "_" + tail, head, t)
  {
    var s := head + "_" + t + "_" + tail;
    var r2 := t + ("_" + tail);
    assert s == head + ("_" + r2);
  }

  /** The clock reading read back from a generated id is the one it was built from. */
  lemma TimestampOfJobId(pid: nat, now: nat, counter: nat)
    requires now < ULLONG_LIMIT
    ensures TimestampOf(JobId(pid, now, counter)) == Some(now)
  {
    var u1 := |"job" + Decimal(pid)|;
    JobIdUnderscores(pid, now, counter);
    StoullDecimal(now);
    TimestampBetween(JobId(pid, now, counter), u1, Decimal(now), now);
  }

  /** The first two underscores of a generated id enclose its clock reading. */
  lemma JobIdUnderscores(pid: nat, now: nat, counter: nat)
    ensures ReadingBetween(JobId(pid, now, counter), |"job" + Decimal(pid)|, Decimal(now))
  {
    DecimalNoUnderscore(pid);
    DecimalNoUnderscore(now);
    JobPrefix(Decimal(pid));
    JobIdLayout(pid, now, counter);
    JobFields(JobId(pid, now, counter), "job" + Decimal(pid), Decimal(now));
  }

  /** `job` followed by an underscore-free word is underscore-free and starts with `job`. */
  lemma JobPrefix(w: string)
    requires NoUnderscore(w)
    ensures var head := "job" + w; 3 <= |head| && head[..3] == "job" && NoUnderscore(head)
  {
    var head := "job" + w;
    assert forall i :: 3 <= i < |head| ==> head[i] == w[i - 3];
  }

  /** A generated id is laid out as `job<pid>_<now>_<counter>`. */
  lemma JobIdLayout(pid: nat, now: nat, counter: nat)
    ensures LaidOut(JobId(pid, now, counter), "job" + Decimal(pid), Decimal(now))
  {
    var head, t, tail := "job" + Decimal(pid), Decimal(now), Decimal(counter);
    assert JobId(pid, now, counter) == head + "_" + t + "_" + tail;
    Layout(head, t, tail);
  }

  /** In a string laid out as `job..._t_...` with underscore-free fields, the first two underscores enclose `t`. */
  lemma JobFields(s: string, head: string, t: string)
    requires 3 <= |head| && head[..3] == "job"
    requires NoUnderscore(head) && NoUnderscore(t)
    requires LaidOut(s, head, t)
    ensures ReadingBetween(s, |head|, t)
  {
    UnderscoreFields(s, head, t);
    assert s[..3] == head[..3];
  }

  /** `s` starts with `job` and its first two underscores, the first at `u1`, enclose `t`. */
  predicate ReadingBetween(s: string, u1: nat, t: string) {
    && u1 + 1 + |t| <= |s| && 3 <= |s| && s[..3] == "job"
    && FindChar(s, '_', 0) == Some(u1)
    && FindChar(s, '_', u1 + 1) == Some(u1 + 1 + |t|)
    && s[u1 + 1..u1 + 1 + |t|] == t
  }

  /** An id starting with `job` whose first two underscores enclose the digits of `n` carries the reading `n`. */
  lemma TimestampBetween(s: string, u1: nat, t: string, n: nat)
    requires ReadingBetween(s, u1, t) && Stoull(t) == Some(n)
    ensures TimestampOf(s) == Some(n)
  {
    ReadingAfterBetween(s, u1, t, n);
    assert StartsWith(s, "job");
  }

  lemma ReadingAfterBetween(s: string, u1: nat, t: string, n: nat)
    requires u1 + 1 + |t| <= |s|
    requires FindChar(s, '_', u1 + 1) == Some(u1 + 1 + |t|)
    requires s[u1 + 1..u1 + 1 + |t|] == t && Stoull(t) == Some(n)
    ensures ReadingAfter(s, u1) == Some(n)
  {
  }

  /** Of two outputs of generated jobs, the search picks the one with the later clock reading. */
  lemma LatestOfTwo(d: Disk, pid: nat, t1: nat, c1: nat, t2: nat, c2: nat)
    requires t1 < t2 < ULLONG_LIMIT && 0 < t1
    requires Output in d.dirs
    requires d.IsRegular(Path(Output, TxtName(JobId(pid, t1, c1))))
    requires d.IsRegular(Path(Output, TxtName(JobId(pid, t2, c2))))
    ensures LatestJobId(d, [TxtName(JobId(pid, t1, c1)), TxtName(JobId(pid, t2, c2))]) == JobId(pid, t2, c2)
  {
    var older := JobId(pid, t1, c1);
    var newer := JobId(pid, t2, c2);
    TimestampOfJobId(pid, t1, c1);
    TimestampOfJobId(pid, t2, c2);
    TxtNameStem(older);
    TxtNameStem(newer);
    var listing := [TxtName(older), TxtName(newer)];
    var cs := Scores(d, listing);
    assert cs[0] == Some(Scored(older, t1));
    assert cs[1] == Some(Scored(newer, t2));
    assert cs[1..] == [cs[1]] && cs[1..][1..] == [];
    assert LatestFrom(cs, "", 0) == LatestFrom(cs[1..], older, t1);
    assert LatestFrom(cs[1..], older, t1) == LatestFrom([], newer, t2);
  }

  /**
    The newest job is chosen by the number between the underscores, not by
    comparing names: of the ids for clock readings 9 and 10, the one for 10
    wins although its name sorts first.
   */
  lemma LatestIsNumericNotLexicographic(d: Disk)
    requires Output in d.dirs
    requires d.IsRegular(Path(Output, TxtName(JobId(1, 9, 0))))
    requires d.IsRegular(Path(Output, TxtName(JobId(1, 10, 1))))
    ensures LatestJobId(d, [TxtName(JobId(1, 9, 0)), TxtName(JobId(1, 10, 1))]) == JobId(1, 10, 1)
  {
    LatestOfTwo(d, 1, 9, 0, 10, 1);
  }

  /** The id for clock reading 10 sorts before the one for 9. */
  lemma SampleIdsSortReversed()
    ensures JobId(1, 9, 0)[..5] == JobId(1, 10, 1)[..5] && JobId(1, 10, 1)[5] < JobId(1, 9, 0)[5]
  {
    SampleIds();
    var older, newer := JobId(1, 9, 0), JobId(1, 10, 1);
    assert older[..5] == "job1_" == newer[..5];
    assert newer[5] == '1' && older[5] == '9';
  }

  lemma SampleIds()
    ensures JobId(1, 9, 0) == "job1_9_0" && JobId(1, 10, 1) == "job1_10_1"
  {
    assert Decimal(10) == Decimal(1) + [DigitChar(0)];
  }

  /** The retrieval side, reading the output directory of the shared file system. */
  class Flow {
    const fs: FileSystem

    constructor (fs: FileSystem)
      ensures this.fs == fs
    {
      this.fs := fs;
    }

    method Retrieve(id: string) returns (r: JobInference)
      ensures r == Retrieved(fs.disk, id)
    {
      var text := fs.Read(Path(Output, TxtName(id)));
      r := JobInference(id, if text.Some? then text.value else "");
    }

    /** `findLatestJobId()` over a listing of the output directory. */
    method FindLatestJobId(listing: seq<string>) returns (latest: string)
      ensures latest == LatestJobId(fs.disk, listing)
    {
      latest := "";
      if Output !in fs.disk.dirs {
        return;
      }
      var stamp: nat := 0;
      var i := 0;
      while i < |listing|
        invariant 0 <= i <= |listing|
        invariant LatestFrom(Scores(fs.disk, listing), "", 0) == LatestFrom(Scores(fs.disk, listing)[i..], latest, stamp)
      {
        assert Scores(fs.disk, listing)[i..][1..] == Scores(fs.disk, listing)[i + 1..];
        var name := listing[i];
        if IsTxt(name) && fs.disk.IsRegular(Path(Output, name)) {
          var t := TimestampOf(Stem(name));
          if t.Some? && t.value > stamp {
            stamp := t.value;
            latest := Stem(name);
          }
        }
        i := i + 1;
      }
    }

    /** `retrieve()`: the result of the newest job. */
    method RetrieveLatest(listing: seq<string>) returns (r: JobInference)
      ensures r == Retrieved(fs.disk, LatestJobId(fs.disk, listing))
    {
      var id := FindLatestJobId(listing);
      r := Retrieve(id);
    }
  }
}
