/** What the demo play-count database means: a bounded queue of title ids with play counts. */
module DemoQueue {
  import opened Bytes

  type u64 = x: int | 0 <= x < 0x1_0000_0000_0000_0000

  const MAX_ENTRIES: nat := 4096

  /** A title id without its console type. */
  function Masked(tid: u64): (r: u64)
    ensures r < 0x1_0000_0000_0000
  {
    tid % 0x1_0000_0000_0000
  }

  /** Oldest first. */
  datatype Entry = Entry(tid: u64, plays: byte)

  type Queue = seq<Entry>

  ghost predicate Bounded(q: Queue) {
    && |q| <= MAX_ENTRIES
    && (forall i :: 0 <= i < |q| ==> q[i].tid == Masked(q[i].tid))
    && forall i, j :: 0 <= i < j < |q| ==> q[i].tid != q[j].tid
  }

  /** The place of tid, or |q|. */
  function Find(q: Queue, tid: u64): (p: nat)
    ensures p <= |q| && (p < |q| ==> q[p].tid == tid) && forall i :: 0 <= i < p ==> q[i].tid != tid
  {
    if q == [] || q[0].tid == tid then 0 else 1 + Find(q[1..], tid)
  }

  lemma FindUnique(q: Queue, tid: u64, p: nat)
    requires Bounded(q) && p < |q| && q[p].tid == tid
    ensures Find(q, tid) == p
  {
  }

  /** A new title; when the queue is full the oldest makes room. */
  function Inserted(q: Queue, tid: u64): Queue {
    (if |q| >= MAX_ENTRIES then q[1..] else q) + [Entry(tid, 1)]
  }

  /** One more launch of a masked title id. */
  function Launched(q: Queue, tid: u64): Queue {
    var p := Find(q, tid);
    if p < |q| then q[p := Entry(tid, (q[p].plays + 1) % 0x100)] else Inserted(q, tid)
  }

  /** The play count of tid, or -1 for a title that is not there. */
  function Plays(q: Queue, tid: u64): (n: int)
    ensures -1 <= n < 0x100
  {
    var p := Find(q, tid);
    if p < |q| then q[p].plays else -1
  }

  /** What AM9 says of the ticket: flags are 0 for a title without a limit. */
  datatype TicketLimit = NoTicket | Limit(flags: byte, playcount: byte)

  /** There is a launch right unless the ticket cannot be read, or it is limited and the title has
      reached its limit. */
  predicate HasRight(q: Queue, tid: u64, limit: TicketLimit) {
    limit.Limit? && (limit.flags == 0 || Plays(q, tid) < limit.playcount as int)
  }

  lemma PlaysAt(q: Queue, p: nat)
    requires Bounded(q) && p < |q|
    ensures Plays(q, q[p].tid) == q[p].plays
  {
    FindUnique(q, q[p].tid, p);
  }

  lemma InsertedBounded(q: Queue, tid: u64)
    requires Bounded(q) && tid == Masked(tid) && Plays(q, tid) < 0
    ensures Bounded(Inserted(q, tid))
  {
  }

  lemma LaunchedBounded(q: Queue, tid: u64)
    requires Bounded(q) && tid == Masked(tid)
    ensures Bounded(Launched(q, tid))
  {
    if Plays(q, tid) < 0 { InsertedBounded(q, tid); }
  }

  /** A launch counts up its own title, and evicts the oldest one when it enters a new title into a
      full queue; every other play count stays. */
  lemma LaunchedPlays(q: Queue, tid: u64, other: u64)
    requires Bounded(q) && tid == Masked(tid)
    ensures Plays(Launched(q, tid), other) ==
            if other == tid then (if Plays(q, tid) < 0 then 1 else (Plays(q, tid) + 1) % 0x100)
            else if Plays(q, tid) < 0 && |q| == MAX_ENTRIES && other == q[0].tid then -1
            else Plays(q, other)
  {
    if Plays(q, tid) < 0 {
      InsertedBounded(q, tid);
      InsertedPlays(q, tid, other);
    } else {
      LaunchedBounded(q, tid);
      CountedPlays(q, Find(q, tid), (Plays(q, tid) + 1) % 0x100, other);
    }
  }

  lemma CountedPlays(q: Queue, p: nat, plays: byte, other: u64)
    requires Bounded(q) && p < |q| && Bounded(q[p := Entry(q[p].tid, plays)])
    ensures Plays(q[p := Entry(q[p].tid, plays)], other) == if other == q[p].tid then plays else Plays(q, other)
  {
    var q1 := q[p := Entry(q[p].tid, plays)];
    FindUnique(q1, q[p].tid, p);
    var o := Find(q, other);
    if o < |q| {
      FindUnique(q1, other, o);
    } else {
      Absent(q1, other);
    }
  }

  lemma Absent(q: Queue, tid: u64)
    requires forall i :: 0 <= i < |q| ==> q[i].tid != tid
    ensures Find(q, tid) == |q|
  {
  }

  lemma InsertedPlays(q: Queue, tid: u64, other: u64)
    requires Bounded(q) && Plays(q, tid) < 0 && Bounded(Inserted(q, tid))
    ensures Plays(Inserted(q, tid), other) ==
            if other == tid then 1
            else if |q| == MAX_ENTRIES && other == q[0].tid then -1
            else Plays(q, other)
  {
    var q1 := Inserted(q, tid);
    var dropped := if |q| >= MAX_ENTRIES then 1 else 0;
    PlaysAt(q1, |q1| - 1);
    var o := Find(q, other);
    if dropped <= o < |q| {
      assert q1[o - dropped] == q[o];
      FindUnique(q1, other, o - dropped);
    } else if other != tid {
      forall i | 0 <= i < |q1|
        ensures q1[i].tid != other
      {
        if i < |q1| - 1 { assert q1[i] == q[i + dropped]; }
      }
      Absent(q1, other);
    }
  }

  // Whole runs.

  /** A check of a launch right, or a reset of the database. */
  datatype Request = Check(tid: u64, limit: TicketLimit) | Reset

  function Served(q: Queue, r: Request): Queue {
    match r
    case Check(t, limit) => if HasRight(q, Masked(t), limit) then Launched(q, Masked(t)) else q
    case Reset => []
  }

  function Run(q: Queue, rs: seq<Request>): Queue
    decreases |rs|
  {
    if rs == [] then q else Run(Served(q, rs[0]), rs[1..])
  }

  lemma {:induction false} RunBounded(q: Queue, rs: seq<Request>)
    requires Bounded(q)
    ensures Bounded(Run(q, rs))
    decreases |rs|
  {
    hide Served;
    if rs != [] {
      ServedBounded(q, rs[0]);
      RunBounded(Served(q, rs[0]), rs[1..]);
    }
  }

  predicate Grants(q: Queue, r: Request, tid: u64) {
    r.Check? && Masked(r.tid) == tid && HasRight(q, tid, r.limit)
  }

  /** The launches of tid granted since its present entry was made, n of them before the request. */
  function GrantedBy(q: Queue, r: Request, tid: u64, n: nat): nat {
    if !Grants(q, r, tid) then n else if Plays(q, tid) >= 0 then n + 1 else 1
  }

  function Granted(q: Queue, rs: seq<Request>, tid: u64, n: nat): nat
    decreases |rs|
  {
    if rs == [] then n else Granted(Served(q, rs[0]), rs[1..], tid, GrantedBy(q, rs[0], tid, n))
  }

  lemma ServedBounded(q: Queue, r: Request)
    requires Bounded(q)
    ensures Bounded(Served(q, r))
  {
    hide Launched;
    if r.Check? { LaunchedBounded(q, Masked(r.tid)); }
  }

  lemma ServedPlays(q: Queue, r: Request, tid: u64, n: nat)
    requires Bounded(q) && tid == Masked(tid) && (Plays(q, tid) >= 0 ==> Plays(q, tid) == n % 0x100)
    ensures var q1 := Served(q, r); Plays(q1, tid) >= 0 ==> Plays(q1, tid) == GrantedBy(q, r, tid, n) % 0x100
  {
    hide Launched, Plays;
    if r.Check? {
      LaunchedPlays(q, Masked(r.tid), tid);
    } else {
      Absent([], tid);
      assert Plays([], tid) == -1 by { EmptyPlays(tid); }
    }
  }

  lemma EmptyPlays(tid: u64)
    ensures Plays([], tid) == -1
  {
  }

  /** The play count of an entry is the number of launches granted since the entry was made, modulo 256. */
  lemma {:induction false} PlaysAreGrants(q: Queue, rs: seq<Request>, tid: u64, n: nat)
    requires Bounded(q) && tid == Masked(tid) && (Plays(q, tid) >= 0 ==> Plays(q, tid) == n % 0x100)
    ensures Plays(Run(q, rs), tid) >= 0 ==> Plays(Run(q, rs), tid) == Granted(q, rs, tid, n) % 0x100
    decreases |rs|
  {
    hide Plays, Served, GrantedBy;
    if rs != [] {
      ServedBounded(q, rs[0]);
      ServedPlays(q, rs[0], tid, n);
      PlaysAreGrants(Served(q, rs[0]), rs[1..], tid, GrantedBy(q, rs[0], tid, n));
    }
  }

  /** Every check of tid in the run finds a ticket limit of at most limit. */
  predicate Limited(rs: seq<Request>, tid: u64, limit: byte) {
    forall i :: 0 <= i < |rs| && rs[i].Check? && Masked(rs[i].tid) == tid && rs[i].limit.Limit? ==>
      rs[i].limit.flags != 0 && rs[i].limit.playcount <= limit
  }

  lemma ServedLimited(q: Queue, r: Request, tid: u64, limit: byte, n: nat)
    requires Bounded(q) && tid == Masked(tid) && Limited([r], tid, limit)
    requires (n <= 1 || n <= limit) && (Plays(q, tid) >= 0 ==> Plays(q, tid) == n)
    ensures var n1, q1 := GrantedBy(q, r, tid, n), Served(q, r);
            (n1 <= 1 || n1 <= limit) && (Plays(q1, tid) >= 0 ==> Plays(q1, tid) == n1)
  {
    hide Launched, Plays;
    assert [r][0] == r;
    ServedPlays(q, r, tid, n);
  }

  /** A limited title is never granted more launches than its limit while its entry lasts; the first
      launch is granted whatever the limit. */
  lemma {:induction false} LimitRespected(q: Queue, rs: seq<Request>, tid: u64, limit: byte, n: nat)
    requires Bounded(q) && tid == Masked(tid) && Limited(rs, tid, limit)
    requires (n <= 1 || n <= limit) && (Plays(q, tid) >= 0 ==> Plays(q, tid) == n)
    ensures Granted(q, rs, tid, n) <= 1 || Granted(q, rs, tid, n) <= limit
    decreases |rs|
  {
    hide Plays, Served, GrantedBy;
    if rs != [] {
      assert Limited([rs[0]], tid, limit) && Limited(rs[1..], tid, limit);
      ServedBounded(q, rs[0]);
      ServedLimited(q, rs[0], tid, limit, n);
      LimitRespected(Served(q, rs[0]), rs[1..], tid, limit, GrantedBy(q, rs[0], tid, n));
    }
  }

  /** The rule that a play limit stands for - no more launches granted than the limit allows - holds from
      the empty database exactly for limits of at least 1: the one run that breaks it is a single check
      with the limit 0. */
  lemma LimitExact(tid: u64, limit: byte)
    requires tid == Masked(tid)
    ensures (forall rs :: Limited(rs, tid, limit) ==> Granted([], rs, tid, 0) <= limit as int) <==> limit >= 1
    ensures limit == 0 ==>
              var rs := [Check(tid, Limit(1, 0))]; Limited(rs, tid, limit) && Granted([], rs, tid, 0) == 1
  {
    EmptyPlays(tid);
    if limit >= 1 {
      forall rs | Limited(rs, tid, limit)
        ensures Granted([], rs, tid, 0) <= limit as int
      {
        LimitRespected([], rs, tid, limit, 0);
      }
    } else {
      FirstGranted(tid);
    }
  }

  lemma FirstGranted(tid: u64)
    requires tid == Masked(tid)
    ensures var rs := [Check(tid, Limit(1, 0))]; Limited(rs, tid, 0) && Granted([], rs, tid, 0) == 1
  {
    var rs := [Check(tid, Limit(1, 0))];
    EmptyPlays(tid);
    assert HasRight([], tid, rs[0].limit) && rs[1..] == [];
  }

  // When a launch has to be granted.

  function Checks(rs: seq<Request>, tid: u64): nat {
    if rs == [] then 0 else (if rs[0].Check? && Masked(rs[0].tid) == tid then 1 else 0) + Checks(rs[1..], tid)
  }

  /** The number of checks of tid that are answered with a launch right. */
  function Yeses(q: Queue, rs: seq<Request>, tid: u64): nat
    decreases |rs|
  {
    if rs == [] then 0 else (if Grants(q, rs[0], tid) then 1 else 0) + Yeses(Served(q, rs[0]), rs[1..], tid)
  }

  /** Every check of tid finds a ticket with these flags and this limit. */
  predicate Carries(rs: seq<Request>, tid: u64, flags: byte, limit: byte) {
    forall i :: 0 <= i < |rs| && rs[i].Check? && Masked(rs[i].tid) == tid ==> rs[i].limit == Limit(flags, limit)
  }

  /** A title without a limit is granted every launch, in every run. */
  lemma {:induction false} UnlimitedGranted(q: Queue, rs: seq<Request>, tid: u64, limit: byte)
    requires Carries(rs, tid, 0, limit)
    ensures Yeses(q, rs, tid) == Checks(rs, tid)
    decreases |rs|
  {
    hide Served;
    if rs != [] {
      assert Carries(rs[1..], tid, 0, limit);
      UnlimitedGranted(Served(q, rs[0]), rs[1..], tid, limit);
    }
  }

  lemma YesCounted(q: Queue, r: Request, tid: u64, flags: byte, limit: byte, n: nat)
    requires Bounded(q) && tid == Masked(tid) && r.Check? && flags != 0 && Carries([r], tid, flags, limit)
    requires Plays(q, tid) == (if n == 0 then -1 else n) && (n <= 1 || n <= limit)
    requires |q| + (if Inserts(q, r) then 1 else 0) <= MAX_ENTRIES
    ensures var n1 := n + if Grants(q, r, tid) then 1 else 0;
            && Plays(Served(q, r), tid) == (if n1 == 0 then -1 else n1) && (n1 <= 1 || n1 <= limit)
            && (Masked(r.tid) == tid ==> (Grants(q, r, tid) <==> n == 0 || n < limit))
  {
    hide Launched, Plays;
    assert [r][0] == r;
    LaunchedPlays(q, Masked(r.tid), tid);
  }

  /** A title with a limit, entered n launches ago and neither evicted nor reset: of all checks, as many are
      granted as the limit still allows, and one if the title has never been launched. */
  lemma {:induction false} GrantedExactly(q: Queue, rs: seq<Request>, tid: u64, flags: byte, limit: byte, n: nat)
    requires Bounded(q) && tid == Masked(tid) && flags != 0 && Carries(rs, tid, flags, limit)
    requires forall i :: 0 <= i < |rs| ==> rs[i].Check?
    requires |q| + Insertions(q, rs) <= MAX_ENTRIES
    requires Plays(q, tid) == (if n == 0 then -1 else n) && (n <= 1 || n <= limit)
    ensures n + Yeses(q, rs, tid) == Min(n + Checks(rs, tid), if limit == 0 then 1 else limit)
    decreases |rs|
  {
    hide Plays, Served, Masked, Grants, Inserts;
    if rs != [] {
      assert Carries([rs[0]], tid, flags, limit) && Carries(rs[1..], tid, flags, limit);
      YesCounted(q, rs[0], tid, flags, limit, n);
      ServedBounded(q, rs[0]);
      ServedPlace(q, rs[0]);
      NotOthers(q, rs[0], tid);
      GrantedExactly(Served(q, rs[0]), rs[1..], tid, flags, limit, n + if Grants(q, rs[0], tid) then 1 else 0);
    }
  }

  lemma NotOthers(q: Queue, r: Request, tid: u64)
    ensures Grants(q, r, tid) ==> r.Check? && Masked(r.tid) == tid
  {
  }

  /** From the empty database, as long as no more titles are entered than there is room for: of the checks of
      a title with limit L, exactly the first max(L, 1) are granted. */
  lemma GrantedFromEmpty(rs: seq<Request>, tid: u64, flags: byte, limit: byte)
    requires tid == Masked(tid) && flags != 0 && Carries(rs, tid, flags, limit)
    requires (forall i :: 0 <= i < |rs| ==> rs[i].Check?) && Insertions([], rs) <= MAX_ENTRIES
    ensures Yeses([], rs, tid) == Min(Checks(rs, tid), if limit == 0 then 1 else limit)
  {
    EmptyPlays(tid);
    GrantedExactly([], rs, tid, flags, limit, 0);
  }

  /** The request enters a new title. */
  predicate Inserts(q: Queue, r: Request) {
    r.Check? && HasRight(q, Masked(r.tid), r.limit) && Plays(q, Masked(r.tid)) < 0
  }

  function Insertions(q: Queue, rs: seq<Request>): nat
    decreases |rs|
  {
    if rs == [] then 0
    else (if Inserts(q, rs[0]) then 1 else 0) + Insertions(Served(q, rs[0]), rs[1..])
  }

  lemma ServedPlace(q: Queue, r: Request)
    requires Bounded(q) && r.Check?
    ensures var dropped := if Inserts(q, r) && |q| == MAX_ENTRIES then 1 else 0;
            && |Served(q, r)| == |q| + (if Inserts(q, r) then 1 else 0) - dropped
            && forall p :: dropped <= p < |q| ==> Served(q, r)[p - dropped].tid == q[p].tid
  {
  }

  /** Without a reset, an entry stays until the titles entered after it have pushed it out: k insertions
      drop the oldest |q| + k - 4096 entries and keep all others, in order. */
  lemma {:induction false} FirstInFirstOut(q: Queue, rs: seq<Request>, p: nat)
    requires Bounded(q) && p <= |q| && forall i :: 0 <= i < |rs| ==> rs[i].Check?
    ensures var k := Insertions(q, rs);
            var dropped := if |q| + k <= MAX_ENTRIES then 0 else |q| + k - MAX_ENTRIES;
            && |Run(q, rs)| == |q| + k - dropped
            && (dropped <= p < |q| ==> Run(q, rs)[p - dropped].tid == q[p].tid)
    decreases |rs|
  {
    hide Served, Inserts;
    if rs != [] {
      ServedPlace(q, rs[0]);
      ServedBounded(q, rs[0]);
      FirstInFirstOut(Served(q, rs[0]), rs[1..], if Inserts(q, rs[0]) && |q| == MAX_ENTRIES && p > 0 then p - 1 else p);
    }
  }
}
