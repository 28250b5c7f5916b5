/**
 The per-account limit on wrong codes, under requests that interleave at every
 call to the store (src/accounts/mfa.rs, src/accounts/store/sqlite.rs).

 A request reads the clock, is counted, has its code checked and, unless the
 code was wrong, has its count taken back. Requests are not told apart beyond
 the account and the clock they read, so each stage holds a multiset of them.
 */
module Attempts {

  const ACCOUNT_WINDOW: nat := 15 * 60
  const MAX_FAILURES_PER_ACCOUNT: nat := 10

  /** A row of `mfa_failures`, and a request known by what it read. */
  datatype Count = Count(user: string, at: nat)

  /** `now.saturating_sub(window)`. */
  function Since(now: nat, window: nat): nat {
    if now > window then now - window else 0
  }

  // --- the table ---

  /** The rows of an account after `since`. */
  function Counted(rows: seq<Count>, user: string, since: nat): nat {
    if rows == [] then 0
    else (if rows[0].user == user && rows[0].at > since then 1 else 0) + Counted(rows[1..], user, since)
  }

  /** Rows from `since` or earlier are forgotten, whoever they belong to. */
  function Pruned(rows: seq<Count>, since: nat): seq<Count> {
    if rows == [] then []
    else if rows[0].at > since then [rows[0]] + Pruned(rows[1..], since)
    else Pruned(rows[1..], since)
  }

  lemma {:induction false} PrunedRows(rows: seq<Count>, since: nat, c: Count)
    ensures multiset(Pruned(rows, since))[c] == if c.at > since then multiset(rows)[c] else 0
  {
    if rows != [] {
      assert rows == [rows[0]] + rows[1..];
      PrunedRows(rows[1..], since, c);
    }
  }

  /** One row like `c` goes, if there is one. */
  function Released(rows: seq<Count>, c: Count): (kept: seq<Count>)
    ensures multiset(kept) == multiset(rows) - multiset{c}
  {
    if rows == [] then []
    else
      assert rows == [rows[0]] + rows[1..];
      if rows[0] == c then rows[1..] else [rows[0]] + Released(rows[1..], c)
  }

  predicate HasRoom(rows: seq<Count>, c: Count, since: nat, limit: nat) {
    Counted(Pruned(rows, since), c.user, since) < limit
  }

  class FailureTable {
    var rows: seq<Count>

    constructor ()
      ensures rows == []
    {
      rows := [];
    }

    /**
     One transaction: old rows go, the account's are counted, and a row is
     added if there is room. Refused, it is rolled back and changes nothing.
     */
    method TryAttempt(user: string, at: nat, since: nat, limit: nat) returns (ok: bool)
      modifies this
      ensures ok <==> HasRoom(old(rows), Count(user, at), since, limit)
      ensures rows == if ok then Pruned(old(rows), since) + [Count(user, at)] else old(rows)
    {
      var kept := Pruned(rows, since);
      if Counted(kept, user, since) >= limit {
        return false;
      }
      rows := kept + [Count(user, at)];
      return true;
    }

    method ReleaseAttempt(user: string, at: nat)
      modifies this
      ensures multiset(rows) == multiset(old(rows)) - multiset{Count(user, at)}
      ensures rows == Released(old(rows), Count(user, at))
    {
      rows := Released(rows, Count(user, at));
    }
  }

  // --- the requests ---

  datatype State = State(
    rows: seq<Count>,
    timed: multiset<Count>,   // the clock is read
    counted: multiset<Count>, // counted, the code being checked
    passed: multiset<Count>,  // not found wrong, the count not yet taken back
    wrong: multiset<Count>,   // every wrong code so far
    newest: nat               // the latest clock of a request counted so far
  )

  datatype Event =
    | ReadClock(c: Count)
    | Try(c: Count)
    | Wrong(c: Count)
    | NotWrong(c: Count)
    | Release(c: Count)
    | ReleaseFails(c: Count)

  const Start := State([], multiset{}, multiset{}, multiset{}, multiset{}, 0)

  predicate Enabled(s: State, e: Event) {
    match e
    case ReadClock(_) => true
    case Try(c) => c in s.timed
    case Wrong(c) => c in s.counted
    case NotWrong(c) => c in s.counted
    case Release(c) => c in s.passed
    case ReleaseFails(c) => c in s.passed
  }

  function Next(s: State, e: Event): State
    requires Enabled(s, e)
  {
    match e
    case ReadClock(c) => s.(timed := s.timed + multiset{c})
    case Try(c) =>
      var s' := s.(timed := s.timed - multiset{c});
      var since := Since(c.at, ACCOUNT_WINDOW);
      if HasRoom(s.rows, c, since, MAX_FAILURES_PER_ACCOUNT) then
        s'.(rows := Pruned(s.rows, since) + [c],
            counted := s.counted + multiset{c},
            newest := if c.at > s.newest then c.at else s.newest)
      else s'
    case Wrong(c) => s.(counted := s.counted - multiset{c}, wrong := s.wrong + multiset{c})
    case NotWrong(c) => s.(counted := s.counted - multiset{c}, passed := s.passed + multiset{c})
    case Release(c) => s.(passed := s.passed - multiset{c}, rows := Released(s.rows, c))
    case ReleaseFails(c) => s.(passed := s.passed - multiset{c})
  }

  /** A request counts itself with a clock at most `stale` behind one already counted. */
  predicate Timely(s: State, e: Event, stale: nat) {
    e.Try? ==> e.c.at + stale >= s.newest
  }

  ghost predicate Steps(s: State, s': State, stale: nat) {
    exists e :: Enabled(s, e) && Timely(s, e, stale) && s' == Next(s, e)
  }

  ghost predicate IsRun(trace: seq<State>, stale: nat) {
    && trace != [] && trace[0] == Start
    && forall i | 0 <= i < |trace| - 1 :: Steps(trace[i], trace[i + 1], stale)
  }

  /** Some run, of any number of requests in any order, comes to this state. */
  ghost predicate Reachable(s: State, stale: nat) {
    exists trace :: IsRun(trace, stale) && trace[|trace| - 1] == s
  }

  /** How many of `m` belong to the account with a clock in (lo, hi]. */
  ghost function Held(m: multiset<Count>, user: string, lo: nat, hi: nat): nat {
    if hi <= lo then 0 else m[Count(user, hi)] + Held(m, user, lo, hi - 1)
  }

  /** Codes wrong or still being checked: what a count stands for. */
  ghost function Spent(s: State): multiset<Count> {
    s.counted + s.passed + s.wrong
  }

  lemma {:induction false} HeldMonotone(m: multiset<Count>, m': multiset<Count>, user: string, lo: nat, hi: nat)
    requires forall at: nat | lo < at <= hi :: m[Count(user, at)] <= m'[Count(user, at)]
    ensures Held(m, user, lo, hi) <= Held(m', user, lo, hi)
  {
    if hi > lo {
      HeldMonotone(m, m', user, lo, hi - 1);
    }
  }

  lemma {:induction false} HeldAdd(m: multiset<Count>, c: Count, user: string, lo: nat, hi: nat)
    ensures Held(m + multiset{c}, user, lo, hi) ==
            Held(m, user, lo, hi) + if c.user == user && lo < c.at <= hi then 1 else 0
  {
    if hi > lo {
      HeldAdd(m, c, user, lo, hi - 1);
    }
  }

  /** Rows in a window are rows after its start. */
  lemma {:induction false} HeldIsCounted(rows: seq<Count>, user: string, lo: nat, hi: nat, since: nat)
    requires since <= lo
    ensures Held(multiset(rows), user, lo, hi) <= Counted(rows, user, since)
  {
    if rows == [] {
      HeldNone(user, lo, hi);
    } else {
      assert rows == [rows[0]] + rows[1..];
      assert multiset(rows) == multiset(rows[1..]) + multiset{rows[0]};
      HeldAdd(multiset(rows[1..]), rows[0], user, lo, hi);
      HeldIsCounted(rows[1..], user, lo, hi, since);
    }
  }

  lemma {:induction false} HeldNone(user: string, lo: nat, hi: nat)
    ensures Held(multiset{}, user, lo, hi) == 0
  {
    if hi > lo {
      HeldNone(user, lo, hi - 1);
    }
  }

  // --- only wrong codes count ---

  /** A step in which no count that is to be taken back is left behind. */
  ghost predicate TakesBack(s: State, s': State) {
    exists e :: Enabled(s, e) && !e.ReleaseFails? && s' == Next(s, e)
  }

  lemma TakingBackKeeps(s: State, e: Event)
    requires Enabled(s, e) && !e.ReleaseFails? && multiset(s.rows) <= Spent(s)
    ensures multiset(Next(s, e).rows) <= Spent(Next(s, e))
  {
    if e.Try? {
      var since := Since(e.c.at, ACCOUNT_WINDOW);
      forall c ensures multiset(Pruned(s.rows, since))[c] <= multiset(s.rows)[c] {
        PrunedRows(s.rows, since, c);
      }
    }
  }

  /** In every run every row stands for a code that was wrong, or one not yet found right: right codes leave none. */
  lemma {:induction false} RightCodesLeaveNoRow(trace: seq<State>)
    requires trace != [] && trace[0] == Start && forall i | 0 <= i < |trace| - 1 :: TakesBack(trace[i], trace[i + 1])
    ensures multiset(trace[|trace| - 1].rows) <= Spent(trace[|trace| - 1])
  {
    var n := |trace| - 1;
    if n > 0 {
      RightCodesLeaveNoRow(trace[..n]);
      assert TakesBack(trace[n - 1], trace[n]);
      var e :| Enabled(trace[n - 1], e) && !e.ReleaseFails? && trace[n] == Next(trace[n - 1], e);
      TakingBackKeeps(trace[n - 1], e);
    }
  }

  // --- the limit ---

  /** Every code spent recently enough still has its row. */
  ghost predicate RowsStand(s: State) {
    forall c: Count | c.at > Since(s.newest, ACCOUNT_WINDOW) :: Spent(s)[c] <= multiset(s.rows)[c]
  }

  ghost predicate WindowsHold(s: State, window: nat) {
    forall user, t: nat :: Held(Spent(s), user, Since(t, window), t) <= MAX_FAILURES_PER_ACCOUNT
  }

  lemma TryKeepsWindows(s: State, c: Count, stale: nat, window: nat)
    requires RowsStand(s) && WindowsHold(s, window)
    requires window + stale <= ACCOUNT_WINDOW
    requires Enabled(s, Try(c)) && Timely(s, Try(c), stale)
    requires HasRoom(s.rows, c, Since(c.at, ACCOUNT_WINDOW), MAX_FAILURES_PER_ACCOUNT)
    ensures WindowsHold(Next(s, Try(c)), window)
  {
    var since := Since(c.at, ACCOUNT_WINDOW);
    var kept := Pruned(s.rows, since);
    assert Spent(Next(s, Try(c))) == Spent(s) + multiset{c};
    forall user, t: nat
      ensures Held(Spent(s) + multiset{c}, user, Since(t, window), t) <= MAX_FAILURES_PER_ACCOUNT
    {
      var lo := Since(t, window);
      HeldAdd(Spent(s), c, user, lo, t);
      if c.user == user && lo < c.at <= t {
        forall at: nat | lo < at <= t ensures Spent(s)[Count(user, at)] <= multiset(kept)[Count(user, at)] {
          PrunedRows(s.rows, since, Count(user, at));
        }
        HeldMonotone(Spent(s), multiset(kept), user, lo, t);
        HeldIsCounted(kept, user, lo, t, since);
      }
    }
  }

  lemma TryKeepsRows(s: State, c: Count)
    requires RowsStand(s) && Enabled(s, Try(c))
    requires HasRoom(s.rows, c, Since(c.at, ACCOUNT_WINDOW), MAX_FAILURES_PER_ACCOUNT)
    ensures RowsStand(Next(s, Try(c)))
  {
    var s' := Next(s, Try(c));
    var kept := Pruned(s.rows, Since(c.at, ACCOUNT_WINDOW));
    assert multiset(s'.rows) == multiset(kept) + multiset{c};
    assert Spent(s') == Spent(s) + multiset{c};
    forall c': Count | c'.at > Since(s'.newest, ACCOUNT_WINDOW) ensures Spent(s')[c'] <= multiset(s'.rows)[c'] {
      PrunedRows(s.rows, Since(c.at, ACCOUNT_WINDOW), c');
    }
  }

  lemma NextKeeps(s: State, e: Event, stale: nat, window: nat)
    requires RowsStand(s) && WindowsHold(s, window)
    requires window + stale <= ACCOUNT_WINDOW
    requires Enabled(s, e) && Timely(s, e, stale)
    ensures RowsStand(Next(s, e)) && WindowsHold(Next(s, e), window)
  {
    var s' := Next(s, e);
    if e.Try? && HasRoom(s.rows, e.c, Since(e.c.at, ACCOUNT_WINDOW), MAX_FAILURES_PER_ACCOUNT) {
      TryKeepsWindows(s, e.c, stale, window);
      TryKeepsRows(s, e.c);
    } else {
      SpendsNoMore(s, e);
      FewerSpent(s, s', window);
    }
  }

  /** Taking a count back takes no row a code still needs. */
  lemma ReleaseSpendsNoMore(s: State, c: Count)
    requires RowsStand(s) && Enabled(s, Release(c))
    ensures forall d: Count :: Spent(Next(s, Release(c)))[d] <= Spent(s)[d]
    ensures RowsStand(Next(s, Release(c)))
  {
    var s' := Next(s, Release(c));
    forall d: Count
      ensures Spent(s')[d] == Spent(s)[d] - (if d == c then 1 else 0)
      ensures multiset(s'.rows)[d] + (if d == c then 1 else 0) >= multiset(s.rows)[d]
    {
    }
  }

  /** Every other event only lets codes go, and takes no row a code still needs. */
  lemma SpendsNoMore(s: State, e: Event)
    requires RowsStand(s) && Enabled(s, e)
    requires e.Try? ==> !HasRoom(s.rows, e.c, Since(e.c.at, ACCOUNT_WINDOW), MAX_FAILURES_PER_ACCOUNT)
    ensures forall c: Count :: Spent(Next(s, e))[c] <= Spent(s)[c]
    ensures RowsStand(Next(s, e))
  {
    if e.Release? {
      ReleaseSpendsNoMore(s, e.c);
    } else {
      assert Next(s, e).rows == s.rows;
      forall c: Count ensures Spent(Next(s, e))[c] <= Spent(s)[c] {
      }
    }
  }

  lemma FewerSpent(s: State, s': State, window: nat)
    requires WindowsHold(s, window)
    requires forall c: Count :: Spent(s')[c] <= Spent(s)[c]
    ensures WindowsHold(s', window)
  {
    forall user, t: nat ensures Held(Spent(s'), user, Since(t, window), t) <= MAX_FAILURES_PER_ACCOUNT {
      HeldMonotone(Spent(s'), Spent(s), user, Since(t, window), t);
    }
  }

  lemma {:induction false} RunsKeep(trace: seq<State>, stale: nat, window: nat)
    requires IsRun(trace, stale)
    requires window + stale <= ACCOUNT_WINDOW
    ensures RowsStand(trace[|trace| - 1]) && WindowsHold(trace[|trace| - 1], window)
  {
    var n := |trace| - 1;
    if n == 0 {
      forall user, t: nat ensures Held(Spent(Start), user, Since(t, window), t) == 0 {
        HeldNone(user, Since(t, window), t);
      }
    } else {
      RunsKeep(trace[..n], stale, window);
      assert Steps(trace[n - 1], trace[n], stale);
      var e :| Enabled(trace[n - 1], e) && Timely(trace[n - 1], e, stale) && trace[n] == Next(trace[n - 1], e);
      NextKeeps(trace[n - 1], e, stale, window);
    }
  }

  /** At most ten wrong codes of any account in any `window` seconds, in every run this stale. */
  ghost predicate LimitHolds(stale: nat, window: nat) {
    forall s, user, t: nat ::
      Reachable(s, stale) ==> Held(s.wrong, user, Since(t, window), t) <= 10
  }

  /**
   The limit and its price: with clocks read up to `stale` seconds before they
   count, it holds for windows of `window` seconds exactly when the two fit in
   the fifteen minutes.
   */
  lemma LimitHoldsExactlyWhen(stale: nat, window: nat)
    requires window > 0
    ensures LimitHolds(stale, window) <==> window + stale <= 900
  {
    if window + stale <= ACCOUNT_WINDOW {
      forall s, user, t: nat | Reachable(s, stale)
        ensures Held(s.wrong, user, Since(t, window), t) <= MAX_FAILURES_PER_ACCOUNT
      {
        var trace :| IsRun(trace, stale) && trace[|trace| - 1] == s;
        RunsKeep(trace, stale, window);
        HeldMonotone(s.wrong, Spent(s), user, Since(t, window), t);
      }
    } else {
      var behind := if stale < ACCOUNT_WINDOW then stale else ACCOUNT_WINDOW;
      var t := 1 + ACCOUNT_WINDOW - behind;
      var s := ElevenReached(stale, behind);
      HeldTwo(s.wrong, "a", 1, t, Since(t, window));
    }
  }

  // --- a run that is too stale ---

  function Copies(c: Count, n: nat): seq<Count> {
    if n == 0 then [] else Copies(c, n - 1) + [c]
  }

  lemma OneMore(s: State, e: Event, stale: nat)
    requires Reachable(s, stale) && Enabled(s, e) && Timely(s, e, stale)
    ensures Reachable(Next(s, e), stale)
  {
    var trace :| IsRun(trace, stale) && trace[|trace| - 1] == s;
    var longer := trace + [Next(s, e)];
    assert Steps(s, Next(s, e), stale);
    assert IsRun(longer, stale) && longer[|longer| - 1] == Next(s, e);
  }

  /** What one wrong code makes of a state with nobody else in it. */
  function AfterWrongCode(s: State, c: Count): State {
    s.(rows := Pruned(s.rows, Since(c.at, ACCOUNT_WINDOW)) + [c],
       wrong := s.wrong + multiset{c},
       newest := if c.at > s.newest then c.at else s.newest)
  }

  lemma OneMoreWrong(s: State, c: Count, stale: nat)
    requires Reachable(s, stale)
    requires c.at + stale >= s.newest
    requires HasRoom(s.rows, c, Since(c.at, ACCOUNT_WINDOW), MAX_FAILURES_PER_ACCOUNT)
    ensures Reachable(AfterWrongCode(s, c), stale)
  {
    OneMore(s, ReadClock(c), stale);
    var s1 := Next(s, ReadClock(c));
    OneMore(s1, Try(c), stale);
    var s2 := Next(s1, Try(c));
    OneMore(s2, Wrong(c), stale);
    assert s.timed + multiset{c} - multiset{c} == s.timed;
    assert s.counted + multiset{c} - multiset{c} == s.counted;
    assert Next(s2, Wrong(c)) == AfterWrongCode(s, c);
  }

  lemma {:induction false} CopiesCounted(c: Count, n: nat, since: nat)
    requires c.at > since
    ensures Counted(Copies(c, n), c.user, since) == n && Pruned(Copies(c, n), since) == Copies(c, n)
  {
    if n > 0 {
      CopiesCounted(c, n - 1, since);
      CountedAppend(Copies(c, n - 1), c, c.user, since);
      PrunedAppend(Copies(c, n - 1), c, since);
    }
  }

  lemma {:induction false} CountedAppend(rows: seq<Count>, c: Count, user: string, since: nat)
    ensures Counted(rows + [c], user, since) == Counted(rows, user, since) + if c.user == user && c.at > since then 1 else 0
  {
    if rows == [] {
      assert Counted([c][1..], user, since) == 0;
    } else {
      assert (rows + [c])[1..] == rows[1..] + [c];
      CountedAppend(rows[1..], c, user, since);
    }
  }

  lemma {:induction false} PrunedAppend(rows: seq<Count>, c: Count, since: nat)
    ensures Pruned(rows + [c], since) == Pruned(rows, since) + if c.at > since then [c] else []
  {
    if rows == [] {
      assert rows + [c] == [c] && Pruned([c][1..], since) == [];
    } else {
      assert (rows + [c])[1..] == rows[1..] + [c];
      PrunedAppend(rows[1..], c, since);
    }
  }

  /** After `n` wrong codes at one time, with nobody else there. */
  function WrongSoFar(c: Count, n: nat): State {
    State(Copies(c, n), multiset{}, multiset{}, multiset{}, multiset{}[c := n], if n == 0 then 0 else c.at)
  }

  lemma NothingYet(c: Count, stale: nat)
    ensures Reachable(WrongSoFar(c, 0), stale)
  {
    assert multiset{}[c := 0] == multiset{};
    assert IsRun([Start], stale) && [Start][0] == WrongSoFar(c, 0);
  }

  lemma WrongOnceMore(c: Count, n: nat)
    requires 0 < c.at <= ACCOUNT_WINDOW && n < MAX_FAILURES_PER_ACCOUNT
    ensures HasRoom(WrongSoFar(c, n).rows, c, Since(c.at, ACCOUNT_WINDOW), MAX_FAILURES_PER_ACCOUNT)
    ensures AfterWrongCode(WrongSoFar(c, n), c) == WrongSoFar(c, n + 1)
  {
    CopiesCounted(c, n, 0);
    assert multiset{}[c := n] + multiset{c} == multiset{}[c := n + 1];
  }

  lemma {:induction false} WrongTimes(c: Count, n: nat, stale: nat)
    requires 0 < c.at <= ACCOUNT_WINDOW && n <= MAX_FAILURES_PER_ACCOUNT
    ensures Reachable(WrongSoFar(c, n), stale)
  {
    if n == 0 {
      NothingYet(c, stale);
    } else {
      WrongTimes(c, n - 1, stale);
      WrongOnceMore(c, n - 1);
      OneMoreWrong(WrongSoFar(c, n - 1), c, stale);
    }
  }

  lemma {:induction false} CopiesPruned(c: Count, n: nat, since: nat)
    requires c.at <= since
    ensures Pruned(Copies(c, n), since) == []
  {
    if n > 0 {
      CopiesPruned(c, n - 1, since);
      PrunedAppend(Copies(c, n - 1), c, since);
    }
  }

  /** Ten wrong codes at 1, another account's code a window later, and one more whose clock was read before that. */
  lemma ElevenReached(stale: nat, behind: nat) returns (s: State)
    requires behind <= stale && behind <= ACCOUNT_WINDOW
    ensures Reachable(s, stale)
    ensures s.wrong ==
            multiset{}[Count("a", 1) := MAX_FAILURES_PER_ACCOUNT]
            + multiset{Count("b", 1 + ACCOUNT_WINDOW)} + multiset{Count("a", 1 + ACCOUNT_WINDOW - behind)}
  {
    var a, b, late := Count("a", 1), Count("b", 1 + ACCOUNT_WINDOW), Count("a", 1 + ACCOUNT_WINDOW - behind);
    WrongTimes(a, MAX_FAILURES_PER_ACCOUNT, stale);
    var ten := WrongSoFar(a, MAX_FAILURES_PER_ACCOUNT);
    CopiesPruned(a, MAX_FAILURES_PER_ACCOUNT, 1);
    OneMoreWrong(ten, b, stale);
    var other := AfterWrongCode(ten, b);
    assert other.rows == [b];
    PrunedAppend([], b, Since(late.at, ACCOUNT_WINDOW));
    CountedAppend([], b, late.user, Since(late.at, ACCOUNT_WINDOW));
    assert [] + [b] == [b];
    OneMoreWrong(other, late, stale);
    s := AfterWrongCode(other, late);
  }

  lemma {:induction false} HeldAtLeast(m: multiset<Count>, user: string, at: nat, lo: nat, hi: nat)
    requires lo < at <= hi
    ensures Held(m, user, lo, hi) >= m[Count(user, at)]
  {
    if at < hi {
      HeldAtLeast(m, user, at, lo, hi - 1);
    }
  }

  lemma HeldTwo(m: multiset<Count>, user: string, first: nat, last: nat, lo: nat)
    requires lo < first <= last
    ensures Held(m, user, lo, last) >= m[Count(user, last)] + if first < last then m[Count(user, first)] else 0
  {
    if first < last {
      HeldAtLeast(m, user, first, lo, last - 1);
    }
  }
}
