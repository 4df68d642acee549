/**
 The hourly anomaly scan (`detect_anomalies`).

 The scan reads the request records of the trailing hour, counts them per
 client address, flags every address that requested a sensitive path, and
 then flags every address whose count exceeds the threshold. Flags enter the
 store through get-or-create, so the store is modelled as a sequence in
 insertion order to which a flag is appended only when it is absent.
 */
module Anomaly {
  import opened Common

  /** Length of the trailing window, in seconds (one hour). */
  const WindowSeconds: int := 3600

  /** An address is flagged for volume when its count is strictly above this. */
  const Threshold: nat := 100

  /** Paths whose access is flagged; membership is exact string equality. */
  const SensitivePaths: seq<string> := ["/admin", "/login"]

  /** A suspicious-address flag; the store holds at most one per pair. */
  datatype Flag = Flag(ip: string, reason: Reason)

  predicate InWindow(r: LogRecord, now: int)
  {
    r.timestamp >= now - WindowSeconds
  }

  /** Why an address was flagged. The store keys flags by address and reason
      text; `ReasonTextInjective` shows that keying by this structured
      reason is the same. */
  datatype Reason = SensitivePath(path: string) | ExcessiveRequests(count: nat)

  /** The reason text stored with a flag. */
  function ReasonText(reason: Reason): string
  {
    match reason
    case SensitivePath(path) => "Accessed sensitive path: " + path
    case ExcessiveRequests(count) => "Excessive requests (" + NatToString(count) + ") in last hour"
  }

  /* ---------------------------------------------------------------------
     Reference definitions: what the scan is supposed to produce, stated
     over the whole record sequence without any iteration order.
     --------------------------------------------------------------------- */

  /** Positions of the in-window records that carry `ip`. */
  function WindowIndices(logs: seq<LogRecord>, ip: string, now: int): set<int>
  {
    set i | 0 <= i < |logs| && logs[i].ip == ip && InWindow(logs[i], now)
  }

  /** Number of in-window records that carry `ip`. */
  function WindowCount(logs: seq<LogRecord>, ip: string, now: int): nat
  {
    |WindowIndices(logs, ip, now)|
  }

  /** Addresses with at least one in-window record. */
  function WindowIps(logs: seq<LogRecord>, now: int): set<string>
  {
    set r | r in logs && InWindow(r, now) :: r.ip
  }

  /** One flag per in-window request of a sensitive path. */
  function ExpectedSensitiveFlags(logs: seq<LogRecord>, now: int): set<Flag>
  {
    set r | r in logs && InWindow(r, now) && r.path in SensitivePaths :: Flag(r.ip, SensitivePath(r.path))
  }

  /** One flag per address whose in-window count exceeds the threshold. */
  function ExpectedRateFlags(logs: seq<LogRecord>, now: int): set<Flag>
  {
    set ip | ip in WindowIps(logs, now) && WindowCount(logs, ip, now) > Threshold
      :: Flag(ip, ExcessiveRequests(WindowCount(logs, ip, now)))
  }

  /* ---------------------------------------------------------------------
     The scan as the source computes it.
     --------------------------------------------------------------------- */

  /** The records the window query returns, in stored order. */
  function Recent(logs: seq<LogRecord>, now: int): (rs: seq<LogRecord>)
    ensures |rs| <= |logs|
    ensures forall r :: r in rs <==> r in logs && InWindow(r, now)
  {
    if |logs| == 0 then []
    else
      var last := logs[|logs| - 1];
      Recent(logs[..|logs| - 1], now) + (if InWindow(last, now) then [last] else [])
  }

  /** The window query returns every in-window record as often as it is
      stored, and nothing else. */
  lemma {:induction false} RecentMultiplicity(logs: seq<LogRecord>, now: int)
    ensures forall r :: multiset(Recent(logs, now))[r] == if InWindow(r, now) then multiset(logs)[r] else 0
  {
    if |logs| > 0 {
      var last := logs[|logs| - 1];
      RecentMultiplicity(logs[..|logs| - 1], now);
      assert logs == logs[..|logs| - 1] + [last];
    }
  }

  /** Number of records in `rs` that carry `ip`. */
  function Occurrences(rs: seq<LogRecord>, ip: string): nat
  {
    if |rs| == 0 then 0
    else Occurrences(rs[..|rs| - 1], ip) + (if rs[|rs| - 1].ip == ip then 1 else 0)
  }

  function IpsOf(rs: seq<LogRecord>): set<string>
  {
    set r | r in rs :: r.ip
  }

  /** The per-address counter map the first loop builds. */
  function CountPerIp(rs: seq<LogRecord>): map<string, nat>
  {
    if |rs| == 0 then map[]
    else
      var counts := CountPerIp(rs[..|rs| - 1]);
      var ip := rs[|rs| - 1].ip;
      counts[ip := (if ip in counts then counts[ip] else 0) + 1]
  }

  /** The counter's keys are the addresses present, and each value is the
      number of records carrying that address. */
  lemma {:induction false} CountPerIpFacts(rs: seq<LogRecord>)
    ensures CountPerIp(rs).Keys == IpsOf(rs)
    ensures forall ip :: ip in CountPerIp(rs) ==> CountPerIp(rs)[ip] == Occurrences(rs, ip)
  {
    if |rs| > 0 {
      var p := rs[..|rs| - 1];
      var ip := rs[|rs| - 1].ip;
      CountPerIpFacts(p);
      assert rs == p + [rs[|rs| - 1]];
      OccurrencesPositive(p, ip);
    }
  }

  /** The keys of the counter map in insertion order (first appearance),
      which is the order the second loop visits them. */
  function FirstAppearance(rs: seq<LogRecord>): seq<string>
  {
    if |rs| == 0 then []
    else
      var ips := FirstAppearance(rs[..|rs| - 1]);
      var ip := rs[|rs| - 1].ip;
      if ip in ips then ips else ips + [ip]
  }

  /** The key order has no repeats and holds exactly the counted addresses. */
  lemma {:induction false} FirstAppearanceFacts(rs: seq<LogRecord>)
    ensures NoDup(FirstAppearance(rs))
    ensures Elems(FirstAppearance(rs)) == IpsOf(rs)
  {
    if |rs| > 0 {
      var p := rs[..|rs| - 1];
      var ip := rs[|rs| - 1].ip;
      FirstAppearanceFacts(p);
      assert IpsOf(rs) == IpsOf(p) + {ip} by {
        assert rs == p + [rs[|rs| - 1]];
      }
      ElemsConcat(FirstAppearance(p), [ip]);
    }
  }

  /** Get-or-create of one flag: the flag is appended only when absent. */
  function GetOrCreate(store: seq<Flag>, f: Flag): seq<Flag>
  {
    if f in store then store else store + [f]
  }

  /** Get-or-create of a sequence of flags, in order. */
  function GetOrCreateAll(store: seq<Flag>, fs: seq<Flag>): seq<Flag>
  {
    if |fs| == 0 then store
    else GetOrCreate(GetOrCreateAll(store, fs[..|fs| - 1]), fs[|fs| - 1])
  }

  /** One get-or-create adds exactly the flag, removes nothing and never
      creates a duplicate. */
  lemma GetOrCreateFacts(store: seq<Flag>, f: Flag)
    ensures Elems(GetOrCreate(store, f)) == Elems(store) + {f}
    ensures store <= GetOrCreate(store, f)
    ensures NoDup(store) ==> NoDup(GetOrCreate(store, f))
  {
    if f !in store {
      ElemsConcat(store, [f]);
    }
  }

  /** A series of get-or-creates adds exactly the requested flags, removes
      nothing, never creates a duplicate, and changes nothing when every
      requested flag already exists. */
  lemma {:induction false} GetOrCreateAllFacts(store: seq<Flag>, fs: seq<Flag>)
    ensures Elems(GetOrCreateAll(store, fs)) == Elems(store) + Elems(fs)
    ensures store <= GetOrCreateAll(store, fs)
    ensures NoDup(store) ==> NoDup(GetOrCreateAll(store, fs))
    ensures Elems(fs) <= Elems(store) ==> GetOrCreateAll(store, fs) == store
  {
    if |fs| > 0 {
      var p := fs[..|fs| - 1];
      var f := fs[|fs| - 1];
      GetOrCreateAllFacts(store, p);
      GetOrCreateFacts(GetOrCreateAll(store, p), f);
      assert fs == p + [f];
      ElemsConcat(p, [f]);
    }
  }

  lemma GetOrCreateAllSnoc(store: seq<Flag>, fs: seq<Flag>, f: Flag)
    ensures GetOrCreateAll(store, fs + [f]) == GetOrCreate(GetOrCreateAll(store, fs), f)
  {
    assert (fs + [f])[..|fs|] == fs;
  }

  /** Flags the first loop requests, in record order. */
  function SensitiveCandidates(rs: seq<LogRecord>): seq<Flag>
  {
    if |rs| == 0 then []
    else
      var r := rs[|rs| - 1];
      SensitiveCandidates(rs[..|rs| - 1])
        + (if r.path in SensitivePaths then [Flag(r.ip, SensitivePath(r.path))] else [])
  }

  /** Flags the second loop requests, visiting `ips` in order. */
  function RateCandidates(ips: seq<string>, counts: map<string, nat>): seq<Flag>
    requires forall ip :: ip in ips ==> ip in counts
  {
    if |ips| == 0 then []
    else
      var ip := ips[|ips| - 1];
      RateCandidates(ips[..|ips| - 1], counts)
        + (if counts[ip] > Threshold then [Flag(ip, ExcessiveRequests(counts[ip]))] else [])
  }

  /** Flags the second loop requests after counting the records `rs`. */
  function RateRequests(rs: seq<LogRecord>): seq<Flag>
  {
    CountPerIpFacts(rs);
    FirstAppearanceFacts(rs);
    RateCandidates(FirstAppearance(rs), CountPerIp(rs))
  }

  /** One run of the scan at time `now` over the stored records `logs`,
      starting from the flag store `store`. */
  function DetectAnomalies(store: seq<Flag>, logs: seq<LogRecord>, now: int): seq<Flag>
  {
    var rs := Recent(logs, now);
    GetOrCreateAll(GetOrCreateAll(store, SensitiveCandidates(rs)), RateRequests(rs))
  }

  /** A scan removes no flag, keeps the existing ones in place, and never
      puts a second copy of a flag into a duplicate-free store. */
  lemma ScanKeepsStore(store: seq<Flag>, logs: seq<LogRecord>, now: int)
    ensures store <= DetectAnomalies(store, logs, now)
    ensures NoDup(store) ==> NoDup(DetectAnomalies(store, logs, now))
  {
    var rs := Recent(logs, now);
    GetOrCreateAllFacts(store, SensitiveCandidates(rs));
    GetOrCreateAllFacts(GetOrCreateAll(store, SensitiveCandidates(rs)), RateRequests(rs));
  }

  /** The store after a scan holds the old flags, the expected sensitive-path
      flags and the expected volume flags, and nothing else. */
  lemma ScanContents(store: seq<Flag>, logs: seq<LogRecord>, now: int)
    ensures Elems(DetectAnomalies(store, logs, now))
         == Elems(store) + ExpectedSensitiveFlags(logs, now) + ExpectedRateFlags(logs, now)
  {
    var rs := Recent(logs, now);
    var afterSensitive := GetOrCreateAll(store, SensitiveCandidates(rs));
    GetOrCreateAllFacts(store, SensitiveCandidates(rs));
    GetOrCreateAllFacts(afterSensitive, RateRequests(rs));
    SensitiveCandidatesMatch(logs, now);
    RateCandidatesMatch(logs, now);
  }

  /* ---------------------------------------------------------------------
     Lemmas connecting the computation with the reference definitions.
     --------------------------------------------------------------------- */

  function SensitiveFlagsOf(rs: seq<LogRecord>): set<Flag>
  {
    set r | r in rs && r.path in SensitivePaths :: Flag(r.ip, SensitivePath(r.path))
  }

  lemma {:induction false} SensitiveCandidatesElems(rs: seq<LogRecord>)
    ensures Elems(SensitiveCandidates(rs)) == SensitiveFlagsOf(rs)
  {
    if |rs| > 0 {
      var p := rs[..|rs| - 1];
      var r := rs[|rs| - 1];
      SensitiveCandidatesElems(p);
      var extra: seq<Flag> := if r.path in SensitivePaths then [Flag(r.ip, SensitivePath(r.path))] else [];
      ElemsConcat(SensitiveCandidates(p), extra);
      assert rs == p + [r];
      assert SensitiveFlagsOf(rs) == SensitiveFlagsOf(p) + Elems(extra);
    }
  }

  lemma SensitiveCandidatesMatch(logs: seq<LogRecord>, now: int)
    ensures Elems(SensitiveCandidates(Recent(logs, now))) == ExpectedSensitiveFlags(logs, now)
  {
    SensitiveCandidatesElems(Recent(logs, now));
  }

  lemma {:induction false} RateCandidatesElems(ips: seq<string>, counts: map<string, nat>)
    requires forall ip :: ip in ips ==> ip in counts
    ensures Elems(RateCandidates(ips, counts))
         == set ip | ip in ips && counts[ip] > Threshold :: Flag(ip, ExcessiveRequests(counts[ip]))
  {
    if |ips| > 0 {
      var p := ips[..|ips| - 1];
      var ip := ips[|ips| - 1];
      RateCandidatesElems(p, counts);
      var extra: seq<Flag> := if counts[ip] > Threshold then [Flag(ip, ExcessiveRequests(counts[ip]))] else [];
      ElemsConcat(RateCandidates(p, counts), extra);
      assert ips == p + [ip];
      assert forall x :: x in ips <==> x in p || x == ip;
    }
  }

  /** Membership of an address in a sequence of records is the same as a
      positive count. */
  lemma {:induction false} OccurrencesPositive(rs: seq<LogRecord>, ip: string)
    ensures ip in IpsOf(rs) <==> Occurrences(rs, ip) > 0
  {
    if |rs| > 0 {
      OccurrencesPositive(rs[..|rs| - 1], ip);
      assert rs == rs[..|rs| - 1] + [rs[|rs| - 1]];
    }
  }

  /** Counting the filtered records agrees with counting in-window positions. */
  lemma {:induction false} OccurrencesRecent(logs: seq<LogRecord>, ip: string, now: int)
    ensures Occurrences(Recent(logs, now), ip) == WindowCount(logs, ip, now)
  {
    if |logs| == 0 {
      assert WindowIndices(logs, ip, now) == {};
    } else {
      var n := |logs|;
      var p := logs[..n - 1];
      var last := logs[n - 1];
      OccurrencesRecent(p, ip, now);
      var rp := Recent(p, now);
      if InWindow(last, now) {
        assert (rp + [last])[..|rp|] == rp;
      } else {
        assert Recent(logs, now) == rp;
      }
      var matches := last.ip == ip && InWindow(last, now);
      assert Occurrences(Recent(logs, now), ip) == Occurrences(rp, ip) + (if matches then 1 else 0);
      WindowIndicesSnoc(logs, ip, now);
    }
  }

  lemma WindowIndicesSnoc(logs: seq<LogRecord>, ip: string, now: int)
    requires |logs| > 0
    ensures var n := |logs|;
            WindowCount(logs, ip, now)
            == WindowCount(logs[..n - 1], ip, now) + (if logs[n - 1].ip == ip && InWindow(logs[n - 1], now) then 1 else 0)
  {
    var n := |logs|;
    var before := WindowIndices(logs[..n - 1], ip, now);
    var after := WindowIndices(logs, ip, now);
    var matches := logs[n - 1].ip == ip && InWindow(logs[n - 1], now);
    var expected := if matches then before + {n - 1} else before;
    assert after == expected by {
      forall i | i in after
        ensures i in expected
      {
        if i < n - 1 {
          assert logs[..n - 1][i] == logs[i];
        }
      }
      forall i | i in expected
        ensures i in after
      {
        if i < n - 1 {
          assert logs[..n - 1][i] == logs[i];
        }
      }
    }
    if matches {
      assert n - 1 !in before;
    }
  }

  /** After the counting loop, an address is a key exactly when it has an
      in-window record, and its value is the number of those records. */
  lemma CountIsWindowCount(logs: seq<LogRecord>, ip: string, now: int)
    ensures ip in CountPerIp(Recent(logs, now)) <==> WindowCount(logs, ip, now) > 0
    ensures ip in CountPerIp(Recent(logs, now)) ==> CountPerIp(Recent(logs, now))[ip] == WindowCount(logs, ip, now)
  {
    CountPerIpFacts(Recent(logs, now));
    OccurrencesRecent(logs, ip, now);
    OccurrencesPositive(Recent(logs, now), ip);
  }

  lemma RateCandidatesMatch(logs: seq<LogRecord>, now: int)
    ensures var rs := Recent(logs, now);
            Elems(RateRequests(rs)) == ExpectedRateFlags(logs, now)
  {
    var rs := Recent(logs, now);
    var counts := CountPerIp(rs);
    var ips := FirstAppearance(rs);
    CountPerIpFacts(rs);
    FirstAppearanceFacts(rs);
    RateCandidatesElems(ips, counts);
    assert IpsOf(rs) == WindowIps(logs, now);
    forall ip | ip in IpsOf(rs)
      ensures counts[ip] == WindowCount(logs, ip, now)
    {
      CountIsWindowCount(logs, ip, now);
    }
  }

  /* ---------------------------------------------------------------------
     Reasons: the two kinds never collide, and each kind is injective.
     --------------------------------------------------------------------- */

  /** Different reasons have different texts. */
  lemma ReasonTextInjective(a: Reason, b: Reason)
    requires ReasonText(a) == ReasonText(b)
    ensures a == b
  {
    var ta := ReasonText(a);
    var tb := ReasonText(b);
    assert ta[0] == if a.SensitivePath? then 'A' else 'E';
    assert tb[0] == if b.SensitivePath? then 'A' else 'E';
    if a.SensitivePath? && b.SensitivePath? {
      var k := |"Accessed sensitive path: "|;
      assert ta[k..] == a.path;
      assert tb[k..] == b.path;
    } else if a.ExcessiveRequests? && b.ExcessiveRequests? {
      var head := "Excessive requests (";
      var tail := ") in last hour";
      var sa := NatToString(a.count);
      var sb := NatToString(b.count);
      assert ta == head + (sa + tail);
      assert tb == head + (sb + tail);
      assert (head + (sa + tail))[|head|..] == sa + tail;
      assert (head + (sb + tail))[|head|..] == sb + tail;
      assert |sa| == |sb|;
      assert (sa + tail)[..|sa|] == sa;
      assert (sb + tail)[..|sb|] == sb;
      if a.count != b.count {
        NatToStringInjective(a.count, b.count);
      }
    }
  }

  /** An address with a positive in-window count has an in-window record. */
  lemma WindowIpOfPositiveCount(logs: seq<LogRecord>, ip: string, now: int)
    requires WindowCount(logs, ip, now) > 0
    ensures ip in WindowIps(logs, now)
  {
    var i :| i in WindowIndices(logs, ip, now);
    assert logs[i] in logs;
  }

  /* ---------------------------------------------------------------------
     Properties of one scan.
     --------------------------------------------------------------------- */

  /** A sensitive-path flag is in the store after the scan exactly when it
      was there before or some in-window record requested exactly that
      path, and the path is one of the sensitive ones. */
  lemma SensitiveFlagIff(store: seq<Flag>, logs: seq<LogRecord>, now: int, ip: string, path: string)
    ensures Flag(ip, SensitivePath(path)) in DetectAnomalies(store, logs, now)
        <==> Flag(ip, SensitivePath(path)) in store
             || (path in SensitivePaths && exists r :: r in logs && InWindow(r, now) && r.ip == ip && r.path == path)
  {
    var f := Flag(ip, SensitivePath(path));
    var after := DetectAnomalies(store, logs, now);
    ScanContents(store, logs, now);
    assert f in after <==> f in Elems(after);
    if f in ExpectedSensitiveFlags(logs, now) {
      var r :| r in logs && InWindow(r, now) && r.path in SensitivePaths
               && f == Flag(r.ip, SensitivePath(r.path));
    }
  }

  /** A volume flag naming count `c` is in the store after the scan exactly
      when it was there before or `c` is the address's in-window count and
      that count is strictly above the threshold: 101 records give a flag,
      100 do not. */
  lemma RateFlagIff(store: seq<Flag>, logs: seq<LogRecord>, now: int, ip: string, c: nat)
    ensures Flag(ip, ExcessiveRequests(c)) in DetectAnomalies(store, logs, now)
        <==> Flag(ip, ExcessiveRequests(c)) in store || (c == WindowCount(logs, ip, now) && c > Threshold)
  {
    var f := Flag(ip, ExcessiveRequests(c));
    var after := DetectAnomalies(store, logs, now);
    ScanContents(store, logs, now);
    assert f in after <==> f in Elems(after);
    if c == WindowCount(logs, ip, now) && c > Threshold {
      WindowIpOfPositiveCount(logs, ip, now);
    }
  }

  /** An address that both requests a sensitive path and exceeds the
      threshold ends up with two flags whose reasons differ. */
  lemma BothFlagsForHeavySensitiveUser(store: seq<Flag>, logs: seq<LogRecord>, now: int, r: LogRecord)
    requires r in logs && InWindow(r, now) && r.path in SensitivePaths
    requires WindowCount(logs, r.ip, now) > Threshold
    ensures Flag(r.ip, SensitivePath(r.path)) in DetectAnomalies(store, logs, now)
    ensures Flag(r.ip, ExcessiveRequests(WindowCount(logs, r.ip, now))) in DetectAnomalies(store, logs, now)
    ensures ReasonText(SensitivePath(r.path)) != ReasonText(ExcessiveRequests(WindowCount(logs, r.ip, now)))
  {
    SensitiveFlagIff(store, logs, now, r.ip, r.path);
    RateFlagIff(store, logs, now, r.ip, WindowCount(logs, r.ip, now));
    if ReasonText(SensitivePath(r.path)) == ReasonText(ExcessiveRequests(WindowCount(logs, r.ip, now))) {
      ReasonTextInjective(SensitivePath(r.path), ExcessiveRequests(WindowCount(logs, r.ip, now)));
    }
  }

  /** Running the scan again over the same records at the same time leaves
      the store exactly as the first run left it. */
  lemma ScanIdempotent(store: seq<Flag>, logs: seq<LogRecord>, now: int)
    ensures DetectAnomalies(DetectAnomalies(store, logs, now), logs, now) == DetectAnomalies(store, logs, now)
  {
    var once := DetectAnomalies(store, logs, now);
    var rs := Recent(logs, now);
    ScanContents(store, logs, now);
    SensitiveCandidatesMatch(logs, now);
    RateCandidatesMatch(logs, now);
    GetOrCreateAllFacts(once, SensitiveCandidates(rs));
    GetOrCreateAllFacts(once, RateRequests(rs));
  }

  /** The window filter distributes over concatenation. */
  lemma {:induction false} RecentConcat(a: seq<LogRecord>, b: seq<LogRecord>, now: int)
    ensures Recent(a + b, now) == Recent(a, now) + Recent(b, now)
  {
    if |b| == 0 {
      assert a + b == a;
    } else {
      var p := b[..|b| - 1];
      var last := b[|b| - 1];
      var extra := if InWindow(last, now) then [last] else [];
      assert (a + b)[..|a + b| - 1] == a + p;
      assert (a + b)[|a + b| - 1] == last;
      calc {
        Recent(a + b, now);
        Recent(a + p, now) + extra;
        { RecentConcat(a, p, now); }
        (Recent(a, now) + Recent(p, now)) + extra;
        Recent(a, now) + (Recent(p, now) + extra);
        Recent(a, now) + Recent(b, now);
      }
    }
  }

  /** Records older than the window change nothing, wherever they sit in
      the stored sequence. */
  lemma StaleRecordsIgnored(store: seq<Flag>, before: seq<LogRecord>, stale: seq<LogRecord>,
                            after: seq<LogRecord>, now: int)
    requires forall r :: r in stale ==> !InWindow(r, now)
    ensures DetectAnomalies(store, before + stale + after, now) == DetectAnomalies(store, before + after, now)
  {
    var rs := Recent(stale, now);
    RecentOfStale(stale, now);
    assert Recent(before + stale + after, now) == Recent(before + after, now) by {
      RecentConcat(before + stale, after, now);
      RecentConcat(before, stale, now);
      RecentConcat(before, after, now);
      assert Recent(before, now) + rs == Recent(before, now);
    }
    ScanDependsOnlyOnWindow(store, before + stale + after, before + after, now);
  }

  lemma {:induction false} RecentOfStale(stale: seq<LogRecord>, now: int)
    requires forall r :: r in stale ==> !InWindow(r, now)
    ensures Recent(stale, now) == []
  {
    if |stale| > 0 {
      var p := stale[..|stale| - 1];
      assert forall r :: r in p ==> r in stale;
      RecentOfStale(p, now);
      assert stale[|stale| - 1] in stale;
    }
  }

  lemma ScanDependsOnlyOnWindow(store: seq<Flag>, logs1: seq<LogRecord>, logs2: seq<LogRecord>, now: int)
    requires Recent(logs1, now) == Recent(logs2, now)
    ensures DetectAnomalies(store, logs1, now) == DetectAnomalies(store, logs2, now)
  {
  }

  /* ---------------------------------------------------------------------
     Uniform traffic and the concrete scenarios built from it.
     --------------------------------------------------------------------- */

  /** `n` copies of one record. */
  function Repeat(r: LogRecord, n: nat): (rs: seq<LogRecord>)
    ensures |rs| == n
    ensures forall i :: 0 <= i < n ==> rs[i] == r
  {
    if n == 0 then [] else Repeat(r, n - 1) + [r]
  }

  /** `n` in-window copies of one record all pass the window filter. */
  lemma {:induction false} RepeatRecent(r: LogRecord, n: nat, now: int)
    requires InWindow(r, now)
    ensures Recent(Repeat(r, n), now) == Repeat(r, n)
  {
    if n > 0 {
      RepeatRecent(r, n - 1, now);
      assert Repeat(r, n)[..n - 1] == Repeat(r, n - 1);
    }
  }

  /** `n` copies of one record are counted `n` times under a single key. */
  lemma {:induction false} RepeatCounts(r: LogRecord, n: nat)
    ensures Occurrences(Repeat(r, n), r.ip) == n
    ensures FirstAppearance(Repeat(r, n)) == if n == 0 then [] else [r.ip]
  {
    if n > 0 {
      RepeatCounts(r, n - 1);
      assert Repeat(r, n)[..n - 1] == Repeat(r, n - 1);
    }
  }

  /** `n` in-window copies of one request give a sensitive-path flag when
      the path is sensitive and a volume flag naming `n` when `n` exceeds
      the threshold, in that order, and nothing else. */
  lemma UniformTraffic(r: LogRecord, n: nat, now: int)
    requires InWindow(r, now)
    ensures DetectAnomalies([], Repeat(r, n), now)
         == (if n > 0 && r.path in SensitivePaths then [Flag(r.ip, SensitivePath(r.path))] else [])
          + (if n > Threshold then [Flag(r.ip, ExcessiveRequests(n))] else [])
  {
    var rs := Repeat(r, n);
    var sensitive: seq<Flag> := if n > 0 && r.path in SensitivePaths then [Flag(r.ip, SensitivePath(r.path))] else [];
    var rate: seq<Flag> := if n > Threshold then [Flag(r.ip, ExcessiveRequests(n))] else [];
    calc {
      DetectAnomalies([], rs, now);
    ==
      GetOrCreateAll(GetOrCreateAll([], SensitiveCandidates(Recent(rs, now))),
                     RateRequests(Recent(rs, now)));
    == { RepeatRecent(r, n, now); }
      GetOrCreateAll(GetOrCreateAll([], SensitiveCandidates(rs)), RateRequests(rs));
    == { UniformSensitivePhase(r, n); }
      GetOrCreateAll(sensitive, RateRequests(rs));
    == { UniformRateCandidates(r, n); }
      GetOrCreateAll(sensitive, rate);
    == { if n > Threshold {
           AppendAbsent(sensitive, Flag(r.ip, ExcessiveRequests(n)));
         } else {
           assert sensitive + rate == sensitive;
         }
       }
      sensitive + rate;
    }
  }

  /** Get-or-create of one absent flag appends it. */
  lemma AppendAbsent(store: seq<Flag>, f: Flag)
    requires f !in store
    ensures GetOrCreateAll(store, [f]) == store + [f]
  {
    assert [f][..0] == [];
  }

  lemma {:induction false} UniformSensitivePhase(r: LogRecord, n: nat)
    ensures GetOrCreateAll([], SensitiveCandidates(Repeat(r, n)))
         == if n > 0 && r.path in SensitivePaths then [Flag(r.ip, SensitivePath(r.path))] else []
  {
    if n > 0 {
      UniformSensitivePhase(r, n - 1);
      var rs := Repeat(r, n);
      assert rs[..n - 1] == Repeat(r, n - 1);
      if r.path in SensitivePaths {
        GetOrCreateAllSnoc([], SensitiveCandidates(Repeat(r, n - 1)), Flag(r.ip, SensitivePath(r.path)));
      } else {
        assert SensitiveCandidates(rs) == SensitiveCandidates(Repeat(r, n - 1)) + [];
      }
    }
  }

  lemma UniformRateCandidates(r: LogRecord, n: nat)
    ensures RateRequests(Repeat(r, n)) == if n > Threshold then [Flag(r.ip, ExcessiveRequests(n))] else []
  {
    var rs := Repeat(r, n);
    RepeatCounts(r, n);
    var counts := CountPerIp(rs);
    if n > 0 {
      assert r.ip in counts && counts[r.ip] == n by {
        CountPerIpFacts(rs);
        assert rs[0] in rs;
      }
      var ips := [r.ip];
      assert ips[..0] == [];
      calc {
        RateRequests(rs);
        RateCandidates(ips, counts);
        RateCandidates([], counts)
          + (if counts[r.ip] > Threshold then [Flag(r.ip, ExcessiveRequests(counts[r.ip]))] else []);
        if n > Threshold then [Flag(r.ip, ExcessiveRequests(n))] else [];
      }
    }
  }

  /** 101 requests to an ordinary path give exactly one volume flag. */
  lemma ScenarioExcessiveRequests(now: int)
    ensures DetectAnomalies([], Repeat(LogRecord("1.2.3.4", "/home", now), 101), now)
         == [Flag("1.2.3.4", ExcessiveRequests(101))]
  {
    var r := LogRecord("1.2.3.4", "/home", now);
    assert r.path !in SensitivePaths by {
      assert r.path[1] == 'h';
    }
    UniformTraffic(r, 101, now);
  }

  /** The stored text of the volume reason for 101 requests. */
  lemma ExcessiveRequestsText()
    ensures ReasonText(ExcessiveRequests(101)) == "Excessive requests (101) in last hour"
  {
    HundredAndOneDigits();
    assert "Excessive requests (" + "101" + ") in last hour" == "Excessive requests (101) in last hour";
  }

  lemma HundredAndOneDigits()
    ensures NatToString(101) == "101"
  {
    assert NatToString(1) == [DigitChar(1)];
    assert NatToString(10) == [DigitChar(1)] + [DigitChar(0)];
    assert DigitChar(1) == '1' && DigitChar(0) == '0';
  }

  /** The stored text of the sensitive-path reason for `/admin`. */
  lemma SensitivePathText()
    ensures ReasonText(SensitivePath("/admin")) == "Accessed sensitive path: /admin"
  {
  }

  /** 100 requests are not above the threshold and give no flag. */
  lemma ScenarioAtThreshold(now: int)
    ensures DetectAnomalies([], Repeat(LogRecord("1.2.3.4", "/home", now), 100), now) == []
  {
    var r := LogRecord("1.2.3.4", "/home", now);
    assert r.path !in SensitivePaths by {
      assert r.path[1] == 'h';
    }
    UniformTraffic(r, 100, now);
  }

  /** One request to `/admin` gives exactly one sensitive-path flag. */
  lemma ScenarioSensitivePath(now: int)
    ensures DetectAnomalies([], [LogRecord("5.6.7.8", "/admin", now)], now)
         == [Flag("5.6.7.8", SensitivePath("/admin"))]
  {
    var r := LogRecord("5.6.7.8", "/admin", now);
    assert r.path in SensitivePaths;
    UniformTraffic(r, 1, now);
    assert Repeat(r, 1) == [r];
  }

  /** Sensitive paths match exactly: a path that merely starts with
      `/admin` is not flagged. */
  lemma ScenarioPathPrefixNotSensitive(now: int)
    ensures DetectAnomalies([], [LogRecord("5.6.7.8", "/admin/users", now)], now) == []
  {
    var r := LogRecord("5.6.7.8", "/admin/users", now);
    assert r.path !in SensitivePaths by {
      assert |r.path| == 12;
    }
    UniformTraffic(r, 1, now);
    assert Repeat(r, 1) == [r];
  }

  /* ---------------------------------------------------------------------
     The scan written as the source's two loops.
     --------------------------------------------------------------------- */

  /** One more record bumps its address's counter, starting from zero. */
  lemma CountStep(done: seq<LogRecord>, log: LogRecord)
    ensures var counts := CountPerIp(done);
            CountPerIp(done + [log]) == counts[log.ip := (if log.ip in counts then counts[log.ip] else 0) + 1]
  {
    assert (done + [log])[..|done|] == done;
  }

  /** One more record appends its address to the key order when the
      address has not been counted yet. */
  lemma KeyOrderStep(done: seq<LogRecord>, log: LogRecord)
    ensures FirstAppearance(done + [log])
         == if log.ip in CountPerIp(done) then FirstAppearance(done) else FirstAppearance(done) + [log.ip]
  {
    assert (done + [log])[..|done|] == done;
    CountPerIpFacts(done);
    FirstAppearanceFacts(done);
    assert log.ip in CountPerIp(done) <==> log.ip in Elems(FirstAppearance(done));
  }

  /** One more record requests a flag exactly when its path is sensitive. */
  lemma SensitiveStep(store: seq<Flag>, done: seq<LogRecord>, log: LogRecord)
    ensures GetOrCreateAll(store, SensitiveCandidates(done + [log]))
         == if log.path in SensitivePaths
            then GetOrCreate(GetOrCreateAll(store, SensitiveCandidates(done)), Flag(log.ip, SensitivePath(log.path)))
            else GetOrCreateAll(store, SensitiveCandidates(done))
  {
    assert (done + [log])[..|done|] == done;
    if log.path in SensitivePaths {
      assert SensitiveCandidates(done + [log]) == SensitiveCandidates(done) + [Flag(log.ip, SensitivePath(log.path))];
      GetOrCreateAllSnoc(store, SensitiveCandidates(done), Flag(log.ip, SensitivePath(log.path)));
    } else {
      assert SensitiveCandidates(done + [log]) == SensitiveCandidates(done) + [];
      assert SensitiveCandidates(done) + [] == SensitiveCandidates(done);
    }
  }

  /** One more address requests a flag exactly when its count is above
      the threshold. */
  lemma RateStep(store: seq<Flag>, done: seq<string>, ip: string, counts: map<string, nat>)
    requires forall x :: x in done ==> x in counts
    requires ip in counts
    ensures forall x :: x in done + [ip] ==> x in counts
    ensures GetOrCreateAll(store, RateCandidates(done + [ip], counts))
         == if counts[ip] > Threshold
            then GetOrCreate(GetOrCreateAll(store, RateCandidates(done, counts)), Flag(ip, ExcessiveRequests(counts[ip])))
            else GetOrCreateAll(store, RateCandidates(done, counts))
  {
    assert (done + [ip])[..|done|] == done;
    var f := Flag(ip, ExcessiveRequests(counts[ip]));
    if counts[ip] > Threshold {
      assert RateCandidates(done + [ip], counts) == RateCandidates(done, counts) + [f];
      GetOrCreateAllSnoc(store, RateCandidates(done, counts), f);
    } else {
      assert RateCandidates(done + [ip], counts) == RateCandidates(done, counts) + [];
      assert RateCandidates(done, counts) + [] == RateCandidates(done, counts);
    }
  }

  /** The first loop: counts per address, remembers the order in which
      addresses were first counted, and get-or-creates a flag for every
      sensitive-path record. */
  method CountingLoop(store: seq<Flag>, recent: seq<LogRecord>)
    returns (ipCounts: map<string, nat>, keyOrder: seq<string>, flags: seq<Flag>)
    ensures ipCounts == CountPerIp(recent)
    ensures keyOrder == FirstAppearance(recent)
    ensures flags == GetOrCreateAll(store, SensitiveCandidates(recent))
  {
    ipCounts := map[];
    keyOrder := [];
    flags := store;
    var i := 0;
    while i < |recent|
      invariant 0 <= i <= |recent|
      invariant ipCounts == CountPerIp(recent[..i])
      invariant keyOrder == FirstAppearance(recent[..i])
      invariant flags == GetOrCreateAll(store, SensitiveCandidates(recent[..i]))
    {
      var log := recent[i];
      ghost var done := recent[..i];
      assert recent[..i + 1] == done + [log];
      if log.ip !in ipCounts {
        keyOrder := keyOrder + [log.ip];
      }
      ipCounts := ipCounts[log.ip := (if log.ip in ipCounts then ipCounts[log.ip] else 0) + 1];
      if log.path in SensitivePaths {
        var f := Flag(log.ip, SensitivePath(log.path));
        if f !in flags {
          flags := flags + [f];
        }
      }
      assert keyOrder == FirstAppearance(done + [log]) by {
        KeyOrderStep(done, log);
      }
      assert ipCounts == CountPerIp(done + [log]) by {
        CountStep(done, log);
      }
      assert flags == GetOrCreateAll(store, SensitiveCandidates(done + [log])) by {
        SensitiveStep(store, done, log);
      }
      i := i + 1;
    }
    assert recent[..i] == recent;
  }

  /** The second loop: get-or-creates a volume flag for every counted
      address above the threshold, visiting addresses in `keyOrder`. */
  method RateLoop(store: seq<Flag>, ipCounts: map<string, nat>, keyOrder: seq<string>)
    returns (flags: seq<Flag>)
    requires forall ip :: ip in keyOrder ==> ip in ipCounts
    ensures flags == GetOrCreateAll(store, RateCandidates(keyOrder, ipCounts))
  {
    flags := store;
    var j := 0;
    while j < |keyOrder|
      invariant 0 <= j <= |keyOrder|
      invariant flags == GetOrCreateAll(store, RateCandidates(keyOrder[..j], ipCounts))
    {
      var ip := keyOrder[j];
      ghost var done := keyOrder[..j];
      assert keyOrder[..j + 1] == done + [ip];
      assert ip in ipCounts;
      RateStep(store, done, ip, ipCounts);
      var count := ipCounts[ip];
      if count > Threshold {
        var f := Flag(ip, ExcessiveRequests(count));
        if f !in flags {
          flags := flags + [f];
        }
      }
      j := j + 1;
    }
    assert keyOrder[..j] == keyOrder;
  }

  /** The scan written as the source writes it: filter, first loop, second
      loop. */
  method ScanLoops(store: seq<Flag>, logs: seq<LogRecord>, now: int) returns (flags: seq<Flag>)
    ensures flags == DetectAnomalies(store, logs, now)
    ensures store <= flags
    ensures Elems(flags) == Elems(store) + ExpectedSensitiveFlags(logs, now) + ExpectedRateFlags(logs, now)
  {
    var recent := Recent(logs, now);
    var ipCounts, keyOrder, afterSensitive := CountingLoop(store, recent);
    CountPerIpFacts(recent);
    FirstAppearanceFacts(recent);
    flags := RateLoop(afterSensitive, ipCounts, keyOrder);
    ScanContents(store, logs, now);
    ScanKeepsStore(store, logs, now);
  }
}
