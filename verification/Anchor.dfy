// The on-chain anchor (registry/contracts/src/RegistryAnchor.sol), the
// publisher's precheck, and the auditor that replays the event history
// (blindage/transparency/auditor.py).
module Anchor {
  import opened Octets
  import opened Results
  import opened Utf8

  type Address = nat
  type Uint64 = x: int | 0 <= x < 0x1_0000_0000_0000_0000

  datatype AnchorError = NotTimelock | VersionNotIncreasing | GeneratedAtNotIncreasing

  datatype Event = Event(registryHash: Octets, generatedAt: Octets, version: Uint64)

  datatype State = State(
    timelock: Address, registryHash: Octets, generatedAt: Octets, version: Uint64, updatedAt: Uint64)

  datatype Call = Call(sender: Address, newHash: Octets, newGeneratedAt: Octets, newVersion: Uint64, timestamp: nat)

  function Deployed(timelock: Address): State
  {
    State(timelock, [], [], 0, 0)
  }

  /** What setAnchor checks, in the order it checks it. */
  function Refusal(s: State, c: Call): Option<AnchorError>
  {
    if c.sender != s.timelock then Some(NotTimelock)
    else if c.newVersion <= s.version then Some(VersionNotIncreasing)
    else if !LexLess(s.generatedAt, c.newGeneratedAt) then Some(GeneratedAtNotIncreasing)
    else None
  }

  /** uint64(block.timestamp) */
  function Truncated(timestamp: nat): Uint64
  {
    timestamp % 0x1_0000_0000_0000_0000
  }

  function Updated(s: State, c: Call): State
  {
    State(s.timelock, c.newHash, c.newGeneratedAt, c.newVersion, Truncated(c.timestamp))
  }

  /** The contract: four storage fields and the log it emits to. */
  class RegistryAnchor {
    const timelock: Address
    var registryHash: Octets
    var generatedAt: Octets
    var version: Uint64
    var updatedAt: Uint64
    var log: seq<Event>

    function Current(): State
      reads this
    {
      State(timelock, registryHash, generatedAt, version, updatedAt)
    }

    constructor (timelock: Address)
      ensures Current() == Deployed(timelock) && log == []
    {
      this.timelock := timelock;
      registryHash, generatedAt, version, updatedAt, log := [], [], 0, 0, [];
    }

    /** A revert leaves storage and log as they were. */
    method SetAnchor(c: Call) returns (r: Result<(), AnchorError>)
      modifies this
      ensures var refusal := Refusal(old(Current()), c);
        match refusal
        case Some(e) => r == Err(e) && Current() == old(Current()) && log == old(log)
        case None =>
          && r == Ok(()) && Current() == Updated(old(Current()), c)
          && log == old(log) + [Event(c.newHash, c.newGeneratedAt, c.newVersion)]
    {
      if c.sender != timelock {
        return Err(NotTimelock);
      }
      if c.newVersion <= version {
        return Err(VersionNotIncreasing);
      }
      var greater := LexGt(c.newGeneratedAt, generatedAt);
      if !greater {
        return Err(GeneratedAtNotIncreasing);
      }
      registryHash := c.newHash;
      generatedAt := c.newGeneratedAt;
      version := c.newVersion;
      updatedAt := c.timestamp % 0x1_0000_0000_0000_0000;
      log := log + [Event(c.newHash, c.newGeneratedAt, c.newVersion)];
      return Ok(());
    }
  }

  /** _lexGt: strict lexicographic greater-than over octets. */
  method LexGt(a: Octets, b: Octets) returns (greater: bool)
    ensures greater <==> LexLess(b, a)
  {
    var n := if |a| < |b| then |a| else |b|;
    var i := 0;
    while i < n
      invariant i <= n
      invariant a[..i] == b[..i]
    {
      if a[i] != b[i] {
        LexDecided(a, b, i);
        return a[i] > b[i];
      }
      i := i + 1;
    }
    LexPrefix(a, b, n);
    return |a| > |b|;
  }

  lemma LexDecided(a: seq<int>, b: seq<int>, i: nat)
    requires i < |a| && i < |b| && a[..i] == b[..i] && a[i] != b[i]
    ensures LexLess(b, a) <==> a[i] > b[i]
  {
    forall k | 0 <= k < i ensures a[k] == b[k] {
      assert a[k] == a[..i][k] && b[k] == b[..i][k];
    }
    if a[i] < b[i] {
      LexAt(a, b, i);
      LexTrichotomy(a, b);
    } else {
      LexAt(b, a, i);
    }
  }

  lemma LexPrefix(a: seq<int>, b: seq<int>, n: nat)
    requires n <= |a| && n <= |b| && a[..n] == b[..n] && (n == |a| || n == |b|)
    ensures LexLess(b, a) <==> |a| > |b|
  {
    assert a == a[..n] + a[n..] && b == a[..n] + b[n..];
    LexCommonPrefix(a[..n], b[n..], a[n..]);
  }

  // ---- Runs ----

  /** A call with the text its bytes encode and the place in the chain of the event it may emit. */
  datatype Submission = Submission(call: Call, text: string, block: nat, logIndex: nat)

  /** An event as the chain logs it. */
  datatype Logged = Logged(event: Event, text: string, block: nat, logIndex: nat)

  /** Storage and log after a sequence of calls, reverted ones included. */
  function Run(timelock: Address, calls: seq<Submission>): (State, seq<Logged>)
  {
    if |calls| == 0 then (Deployed(timelock), [])
    else
      var (s, log) := Run(timelock, calls[..|calls| - 1]);
      var c := calls[|calls| - 1];
      if Refusal(s, c.call).Some? then (s, log)
      else (Updated(s, c.call), log + [Emitted(c)])
  }

  /** The accepted calls of a run. */
  function Effective(timelock: Address, calls: seq<Submission>): seq<Submission>
  {
    if |calls| == 0 then []
    else
      var front, c := calls[..|calls| - 1], calls[|calls| - 1];
      if Refusal(Run(timelock, front).0, c.call).Some? then Effective(timelock, front)
      else Effective(timelock, front) + [c]
  }

  predicate Before(x: Logged, y: Logged)
  {
    x.block < y.block || (x.block == y.block && x.logIndex < y.logIndex)
  }

  /** The bytes are UTF-8, and later calls come later in the chain. */
  ghost predicate WellPlaced(accepted: seq<Submission>)
  {
    && (forall i :: 0 <= i < |accepted| ==> accepted[i].call.newGeneratedAt == Encode(accepted[i].text))
    && (forall i, j :: 0 <= i < j < |accepted| ==> Before(Emitted(accepted[i]), Emitted(accepted[j])))
  }

  /** Python's comparison of two str values. */
  predicate TextLess(s: string, t: string)
  {
    LexLess(CodePoints(s), CodePoints(t))
  }

  /** The contract orders texts by their octets exactly as Python orders them by code point. */
  lemma OrderAgreement(s: string, t: string)
    ensures LexLess(Encode(s), Encode(t)) <==> TextLess(s, t)
  {
    EncodingOrder(CodePoints(s), CodePoints(t));
  }

  /** The code-point order is a strict total order on texts. */
  lemma TextOrderTotal(s: string, t: string, u: string)
    ensures !TextLess(s, s)
    ensures TextLess(s, t) || TextLess(t, s) || s == t
    ensures TextLess(s, t) ==> s != t && !TextLess(t, s)
    ensures TextLess(s, t) && TextLess(t, u) ==> TextLess(s, u)
  {
    var a, b, c := CodePoints(s), CodePoints(t), CodePoints(u);
    LexIrreflexive(a);
    LexTrichotomy(a, b);
    if a == b {
      CodePointsInjective(s, t);
    }
    if LexLess(a, b) && LexLess(b, c) {
      LexTransitive(a, b, c);
    }
  }

  /** publish_anchor's precheck refuses exactly what the contract would revert. */
  lemma PublisherAgrees(s: State, c: Call, currentText: string, newText: string)
    requires c.sender == s.timelock && s.generatedAt == Encode(currentText) && c.newGeneratedAt == Encode(newText)
    ensures c.newVersion <= s.version || !TextLess(currentText, newText) <==> Refusal(s, c).Some?
  {
    OrderAgreement(currentText, newText);
  }

  // ---- What every run keeps ----

  /** Version and generatedAt strictly increase between every two events. */
  ghost predicate FieldsIncrease(log: seq<Logged>)
  {
    forall i, j :: 0 <= i < j < |log| ==>
      log[i].event.version < log[j].event.version && LexLess(log[i].event.generatedAt, log[j].event.generatedAt)
  }

  /** The storage mirrors the last event. */
  ghost predicate Mirrors(timelock: Address, s: State, log: seq<Logged>)
  {
    && s.timelock == timelock
    && (|log| == 0 ==> s == Deployed(timelock))
    && (|log| > 0 ==>
          var last := log[|log| - 1].event;
          s.registryHash == last.registryHash && s.generatedAt == last.generatedAt && s.version == last.version)
  }

  function Emitted(c: Submission): Logged
  {
    Logged(Event(c.call.newHash, c.call.newGeneratedAt, c.call.newVersion), c.text, c.block, c.logIndex)
  }

  /**
   * For any calls whatever, reverted ones included: the storage mirrors the last
   * event and both fields strictly increase along the log.
   */
  lemma {:induction false} RunKeepsInvariant(timelock: Address, calls: seq<Submission>)
    ensures var (s, log) := Run(timelock, calls); Mirrors(timelock, s, log) && FieldsIncrease(log)
  {
    if |calls| > 0 {
      var front, c := calls[..|calls| - 1], calls[|calls| - 1];
      RunKeepsInvariant(timelock, front);
      var (s, log) := Run(timelock, front);
      if Refusal(s, c.call).None? {
        AcceptedExtends(s, log, c);
      }
    }
  }

  /** An accepted call extends an increasing log. */
  lemma AcceptedExtends(s: State, log: seq<Logged>, c: Submission)
    requires FieldsIncrease(log) && Refusal(s, c.call).None?
    requires |log| > 0 ==>
      s.generatedAt == log[|log| - 1].event.generatedAt && s.version == log[|log| - 1].event.version
    ensures FieldsIncrease(log + [Emitted(c)])
  {
    var next := Emitted(c);
    var log' := log + [next];
    forall i, j | 0 <= i < j < |log'|
      ensures log'[i].event.version < log'[j].event.version
      ensures LexLess(log'[i].event.generatedAt, log'[j].event.generatedAt)
    {
      if j == |log| && i < |log| - 1 {
        LexTransitive(log[i].event.generatedAt, log[|log| - 1].event.generatedAt, next.event.generatedAt);
      }
    }
  }

  /** The log lists exactly the accepted calls, in their order. */
  lemma {:induction false} LogIsAccepted(timelock: Address, calls: seq<Submission>)
    ensures var log, accepted := Run(timelock, calls).1, Effective(timelock, calls);
      |log| == |accepted| && forall i :: 0 <= i < |log| ==> log[i] == Emitted(accepted[i])
  {
    if |calls| > 0 {
      LogIsAccepted(timelock, calls[..|calls| - 1]);
    }
  }

  /** setAnchor accepts exactly the timelock's calls that raise the version and the instant. */
  lemma RefusalExact(s: State, c: Call)
    ensures Refusal(s, c).None? <==>
      c.sender == s.timelock && c.newVersion > s.version && LexLess(s.generatedAt, c.newGeneratedAt)
    ensures Refusal(s, c) == Some(NotTimelock) <==> c.sender != s.timelock
    ensures Refusal(s, c) == Some(VersionNotIncreasing) <==> c.sender == s.timelock && c.newVersion <= s.version
  {}

  /**
   * After any calls the storage holds what the last accepted call wrote, or
   * nothing when none was accepted; and every accepted call is the timelock's.
   */
  lemma {:induction false} StorageIsLastAccepted(timelock: Address, calls: seq<Submission>)
    ensures var s, accepted := Run(timelock, calls).0, Effective(timelock, calls);
      && (forall i :: 0 <= i < |accepted| ==> accepted[i].call.sender == timelock && accepted[i] in calls)
      && s ==
      if accepted == [] then State(timelock, [], [], 0, 0)
      else
        var c := accepted[|accepted| - 1].call;
        State(timelock, c.newHash, c.newGeneratedAt, c.newVersion, c.timestamp % 0x1_0000_0000_0000_0000)
  {
    if |calls| > 0 {
      hide LexLess;
      StorageIsLastAccepted(timelock, calls[..|calls| - 1]);
    }
  }

  /** Reverted calls leave no trace: the accepted calls alone give the same storage and log. */
  lemma {:induction false} RevertsLeaveNoTrace(timelock: Address, calls: seq<Submission>)
    ensures Run(timelock, Effective(timelock, calls)) == Run(timelock, calls)
  {
    if |calls| > 0 {
      var front, c := calls[..|calls| - 1], calls[|calls| - 1];
      RevertsLeaveNoTrace(timelock, front);
      var accepted := Effective(timelock, calls);
      if Refusal(Run(timelock, front).0, c.call).None? {
        assert accepted[..|accepted| - 1] == Effective(timelock, front);
      }
    }
  }

  // ---- The auditor ----

  datatype Entry = Entry(version: nat, generatedAt: string, registryHash: Octets)

  datatype Problem =
    | VersionRollback(before: nat, after: nat)
    | GeneratedAtRollback(earlier: string, later: string)
    | HeadMismatch

  function PairProblems(prev: Entry, cur: Entry): seq<Problem>
  {
    (if cur.version <= prev.version then [VersionRollback(prev.version, cur.version)] else [])
    + (if !TextLess(prev.generatedAt, cur.generatedAt)
       then [GeneratedAtRollback(prev.generatedAt, cur.generatedAt)] else [])
  }

  function HistoryProblems(entries: seq<Entry>): seq<Problem>
  {
    if |entries| < 2 then []
    else
      var n := |entries|;
      HistoryProblems(entries[..n - 1]) + PairProblems(entries[n - 2], entries[n - 1])
  }

  /** check_history: the loop over adjacent pairs. */
  method CheckHistory(entries: seq<Entry>) returns (problems: seq<Problem>)
    ensures problems == HistoryProblems(entries)
  {
    problems := [];
    var i := 1;
    while i < |entries|
      invariant 1 <= i && (|entries| > 0 ==> i <= |entries|)
      invariant |entries| > 0 ==> problems == HistoryProblems(entries[..i])
      invariant |entries| == 0 ==> problems == []
    {
      var prev, cur := entries[i - 1], entries[i];
      assert entries[..i + 1][..i] == entries[..i];
      if cur.version <= prev.version {
        problems := problems + [VersionRollback(prev.version, cur.version)];
      }
      if !TextLess(prev.generatedAt, cur.generatedAt) {
        problems := problems + [GeneratedAtRollback(prev.generatedAt, cur.generatedAt)];
      }
      i := i + 1;
    }
    assert |entries| > 0 ==> entries[..i] == entries;
  }

  /** Both fields strictly increase between every two entries. */
  ghost predicate Increasing(entries: seq<Entry>)
  {
    forall i, j :: 0 <= i < j < |entries| ==>
      entries[i].version < entries[j].version && TextLess(entries[i].generatedAt, entries[j].generatedAt)
  }

  /** No problems over adjacent pairs exactly when every two entries increase. */
  lemma {:induction false} HistoryCleanIffIncreasing(entries: seq<Entry>)
    ensures HistoryProblems(entries) == [] <==> Increasing(entries)
  {
    if |entries| >= 2 {
      var n := |entries|;
      var front := entries[..n - 1];
      HistoryCleanIffIncreasing(front);
      if HistoryProblems(entries) == [] {
        assert HistoryProblems(front) == [] && PairProblems(entries[n - 2], entries[n - 1]) == [];
        forall i, j | 0 <= i < j < n
          ensures entries[i].version < entries[j].version && TextLess(entries[i].generatedAt, entries[j].generatedAt)
        {
          if j < n - 1 {
            assert front[i] == entries[i] && front[j] == entries[j];
          } else if i < n - 2 {
            assert front[i] == entries[i] && front[n - 2] == entries[n - 2];
            TextOrderTotal(entries[i].generatedAt, entries[n - 2].generatedAt, entries[n - 1].generatedAt);
          }
        }
      }
      if Increasing(entries) {
        assert forall i :: 0 <= i < n - 1 ==> front[i] == entries[i];
        assert Increasing(front);
      }
    }
  }

  /** fetch_history maps each logged event to an entry. */
  function ToEntry(l: Logged): Entry
  {
    Entry(l.event.version, l.text, l.event.registryHash)
  }

  function ToEntries(log: seq<Logged>): (es: seq<Entry>)
    ensures |es| == |log| && forall i :: 0 <= i < |es| ==> es[i] == ToEntry(log[i])
  {
    seq(|log|, i requires 0 <= i < |log| => ToEntry(log[i]))
  }

  /** A list ordered by (block number, log index). */
  ghost predicate SortedByPlace(s: seq<Logged>)
  {
    forall i, j :: 0 <= i < j < |s| ==> !Before(s[j], s[i])
  }

  /** Later events come later in the chain. */
  ghost predicate PlacesIncrease(log: seq<Logged>)
  {
    forall i, j :: 0 <= i < j < |log| ==> Before(log[i], log[j])
  }

  /** Sorting the fetched events by place restores the order of emission, however they were returned. */
  lemma {:induction false} SortRestoresLog(log: seq<Logged>, fetched: seq<Logged>)
    requires PlacesIncrease(log) && SortedByPlace(fetched) && multiset(fetched) == multiset(log)
    ensures fetched == log
  {
    assert |multiset(fetched)| == |fetched| && |multiset(log)| == |log|;
    if |log| > 0 {
      var n := |log| - 1;
      LastFetched(log, fetched);
      SplitLast(log);
      SplitLast(fetched);
      FrontOrdered(log, fetched);
      hide PlacesIncrease, SortedByPlace;
      SortRestoresLog(log[..n], fetched[..n]);
    }
  }

  lemma SplitLast<T>(s: seq<T>)
    requires |s| > 0
    ensures s == s[..|s| - 1] + [s[|s| - 1]]
    ensures multiset(s) == multiset(s[..|s| - 1]) + multiset{s[|s| - 1]}
    ensures multiset(s[..|s| - 1]) == multiset(s) - multiset{s[|s| - 1]}
  {
    assert s == s[..|s| - 1] + [s[|s| - 1]];
  }

  lemma FrontOrdered(log: seq<Logged>, fetched: seq<Logged>)
    requires PlacesIncrease(log) && SortedByPlace(fetched) && |log| == |fetched| > 0
    ensures PlacesIncrease(log[..|log| - 1]) && SortedByPlace(fetched[..|log| - 1])
  {}

  lemma MemberIndex<T>(s: seq<T>, x: T) returns (k: nat)
    requires x in multiset(s)
    ensures k < |s| && s[k] == x
  {
    k :| 0 <= k < |s| && s[k] == x;
  }

  /** The last event of a sorted fetch is the last one emitted. */
  lemma LastFetched(log: seq<Logged>, fetched: seq<Logged>)
    requires PlacesIncrease(log) && SortedByPlace(fetched) && multiset(fetched) == multiset(log)
    requires |log| == |fetched| > 0
    ensures fetched[|log| - 1] == log[|log| - 1]
  {
    var n := |log| - 1;
    assert fetched[n] in multiset(fetched) && log[n] in multiset(log);
    var k := MemberIndex(log, fetched[n]);
    var m := MemberIndex(fetched, log[n]);
    assert k < n ==> Before(log[k], log[n]);
    assert m < n ==> !Before(fetched[n], fetched[m]);
  }

  /** audit's chain part: the history check and the comparison of the last event with the head. */
  function AuditChain(head: State, entries: seq<Entry>): seq<Problem>
  {
    if |entries| == 0 then []
    else
      var last := entries[|entries| - 1];
      HistoryProblems(entries)
      + (if last.version != head.version || last.registryHash != head.registryHash then [HeadMismatch] else [])
  }

  /** The problem names the field that does not increase from one entry to the next, and both values of it. */
  predicate Falls(prev: Entry, cur: Entry, p: Problem)
  {
    match p
    case VersionRollback(before, after) => prev.version == before && cur.version == after && after <= before
    case GeneratedAtRollback(earlier, later) =>
      prev.generatedAt == earlier && cur.generatedAt == later && (later == earlier || TextLess(later, earlier))
    case HeadMismatch => false
  }

  predicate FallsAfter(entries: seq<Entry>, i: nat, p: Problem)
  {
    i + 1 < |entries| && Falls(entries[i], entries[i + 1], p)
  }

  /** Where the history check reports a fall: at each adjacent pair that does not increase, with its two values. */
  lemma {:induction false} RollbacksExact(entries: seq<Entry>, p: Problem)
    ensures p in HistoryProblems(entries) <==> exists i: nat :: FallsAfter(entries, i, p)
  {
    hide Falls, PairProblems;
    if |entries| >= 2 {
      var n := |entries|;
      var front, last := entries[..n - 1], PairProblems(entries[n - 2], entries[n - 1]);
      RollbacksExact(front, p);
      PairFalls(entries[n - 2], entries[n - 1], p);
      HistoryStep(entries);
      hide HistoryProblems;
      if i: nat :| FallsAfter(front, i, p) {
        assert FallsAfter(entries, i, p);
      }
      if i: nat :| FallsAfter(entries, i, p) {
        assert i < n - 2 ==> FallsAfter(front, i, p);
      }
      assert p in last <==> FallsAfter(entries, n - 2, p);
    }
  }

  lemma HistoryStep(entries: seq<Entry>)
    requires |entries| >= 2
    ensures HistoryProblems(entries) ==
      HistoryProblems(entries[..|entries| - 1]) + PairProblems(entries[|entries| - 2], entries[|entries| - 1])
  {}

  lemma PairFalls(prev: Entry, cur: Entry, p: Problem)
    ensures p in PairProblems(prev, cur) <==> Falls(prev, cur, p)
  {
    TextOrderTotal(prev.generatedAt, cur.generatedAt, prev.generatedAt);
    hide TextLess;
  }

  /**
   * The chain part of the audit is clean exactly when there is no event, or every
   * two events increase and the last one has the version and the hash of the head.
   */
  lemma AuditExact(head: State, entries: seq<Entry>)
    ensures AuditChain(head, entries) == [] <==>
      || entries == []
      || (&& Increasing(entries)
          && entries[|entries| - 1].version == head.version
          && entries[|entries| - 1].registryHash == head.registryHash)
  {
    hide Increasing, HistoryProblems;
    HistoryCleanIffIncreasing(entries);
  }

  /** A head that differs from the last event in version or in hash is reported, and no other. */
  lemma HeadMismatchExact(head: State, entries: seq<Entry>)
    ensures HeadMismatch in AuditChain(head, entries) <==>
      && entries != []
      && (|| entries[|entries| - 1].version != head.version
          || entries[|entries| - 1].registryHash != head.registryHash)
  {
    hide HistoryProblems;
    RollbacksExact(entries, HeadMismatch);
  }

  /**
   * Every contract run passes the audit: for any calls, of which the accepted
   * ones carry UTF-8 and emit in the order of the chain, and for any order in
   * which the node returns the events, the auditor finds no problem, and every
   * two entries increase in both fields.
   */
  lemma EveryRunPassesAudit(timelock: Address, calls: seq<Submission>, fetched: seq<Logged>)
    requires WellPlaced(Effective(timelock, calls))
    requires SortedByPlace(fetched) && multiset(fetched) == multiset(Run(timelock, calls).1)
    ensures AuditChain(Run(timelock, calls).0, ToEntries(fetched)) == []
    ensures Increasing(ToEntries(fetched))
  {
    hide Run, Effective, TextLess, Encode;
    var (s, log) := Run(timelock, calls);
    RunKeepsInvariant(timelock, calls);
    LogIsAccepted(timelock, calls);
    SortRestoresLog(log, fetched);
    TextsIncrease(log);
    HistoryCleanIffIncreasing(ToEntries(log));
  }

  /** Events that increase by octet increase by text. */
  lemma TextsIncrease(log: seq<Logged>)
    requires FieldsIncrease(log) && forall i :: 0 <= i < |log| ==> log[i].event.generatedAt == Encode(log[i].text)
    ensures Increasing(ToEntries(log))
  {
    var entries := ToEntries(log);
    forall i, j | 0 <= i < j < |entries|
      ensures entries[i].version < entries[j].version && TextLess(entries[i].generatedAt, entries[j].generatedAt)
    {
      OrderAgreement(log[i].text, log[j].text);
    }
  }
}
