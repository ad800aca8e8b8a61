/** The notifying file system: a periodic count, the events its ticks emit, its listing,
    and its lookup of files by their decimal names. */
module Notifyfs {

  const TWO_64 := 0x1_0000_0000_0000_0000

  function CountFromTicks(ticks: nat): nat {
    var div10, mod10 := ticks % 20 / 10, ticks % 10;
    var mdv10, mmd10 := 1 - div10, 10 - mod10;
    mdv10 * mod10 + div10 * mmd10
  }

  datatype Event = Create(n: nat) | Unlink(n: nat)

  /** The directory as a receiver of the events believes it to be. */
  function Replay(files: set<nat>, events: seq<Event>): set<nat>
    decreases |events|
  {
    if events == [] then files
    else
      var before, e := Replay(files, events[..|events| - 1]), events[|events| - 1];
      if e.Create? then before + {e.n} else before - {e.n}
  }

  /** Every event is news: a file is created only when absent and removed only when present. */
  ghost predicate Honest(files: set<nat>, events: seq<Event>)
    decreases |events|
  {
    events == [] ||
    (var before, e := Replay(files, events[..|events| - 1]), events[|events| - 1];
     Honest(files, events[..|events| - 1]) && (e.Create? <==> e.n !in before))
  }

  ghost function UpTo(n: nat): (files: set<nat>)
    ensures forall k :: k in files <==> 1 <= k <= n
  {
    if n == 0 then {} else UpTo(n - 1) + {n}
  }

  lemma CountForm(ticks: nat)
    ensures CountFromTicks(ticks) == if ticks % 20 < 10 then ticks % 20 else 20 - ticks % 20
  {
    var q, r := ticks / 20, ticks % 20;
    assert ticks == 10 * (2 * q + r / 10) + r % 10;
    assert ticks % 10 == r % 10;
    if r < 10 {
      assert r / 10 == 0;
    } else {
      assert r / 10 == 1;
    }
  }

  /** The count rises from 0 to 10 and falls back, one at a time, with period 20. */
  lemma CountSteps(ticks: nat)
    ensures 0 <= CountFromTicks(ticks) <= 10
    ensures CountFromTicks(ticks + 20) == CountFromTicks(ticks)
    ensures CountFromTicks(ticks + 1) == CountFromTicks(ticks) + (if ticks % 20 < 10 then 1 else -1)
  {
    CountForm(ticks);
    CountForm(ticks + 1);
    CountForm(ticks + 20);
    NextMod(ticks);
  }

  lemma NextMod(ticks: nat)
    ensures (ticks + 20) % 20 == ticks % 20
    ensures (ticks + 1) % 20 == if ticks % 20 == 19 then 0 else ticks % 20 + 1
  {
  }

  // ------------------------------------------------------------ ticks and events

  /** What the receiver believes at a tick: after the counter has wrapped, the count falls
      from 5 to 0 with one event, and four files that are gone stay until re-created. */
  ghost function Believed(ticks: nat, wrapped: bool): set<nat> {
    UpTo(if wrapped && ticks < 4 then 4 else CountFromTicks(ticks))
  }

  function NextTicks(ticks: nat): nat {
    (ticks + 1) % TWO_64
  }

  lemma FirstCounts(ticks: nat)
    requires ticks < 10
    ensures CountFromTicks(ticks) == ticks && CountFromTicks(ticks + 1) == ticks + 1
  {
    CountForm(ticks);
    CountForm(ticks + 1);
  }

  lemma LastCount()
    ensures CountFromTicks(TWO_64 - 1) == 5 && CountFromTicks(0) == 0
  {
  }

  lemma BelievedMeans(ticks: nat, wrapped: bool)
    ensures Believed(ticks, wrapped) == UpTo(CountFromTicks(ticks)) <==> !(wrapped && ticks < 4)
  {
    if wrapped && ticks < 4 {
      FirstCounts(ticks);
      assert 4 in UpTo(4) && 4 !in UpTo(CountFromTicks(ticks));
    }
  }

  /** The event of one turn of the ticker loop. */
  function EventAt(oldcount: nat, newcount: nat): Event {
    if oldcount < newcount then Create(newcount) else Unlink(oldcount)
  }

  /** How the count goes on from one tick to the next, the wrap included. */
  lemma NextCount(ticks: nat)
    requires ticks < TWO_64
    ensures var count, next := CountFromTicks(ticks), CountFromTicks(NextTicks(ticks));
            if ticks + 1 == TWO_64 then NextTicks(ticks) == 0 && count == 5 && next == 0
            else NextTicks(ticks) == ticks + 1 && (next == count + 1 || next + 1 == count)
    ensures ticks < 10 ==> CountFromTicks(ticks) == ticks && CountFromTicks(NextTicks(ticks)) == ticks + 1
  {
    if ticks + 1 == TWO_64 {
      LastCount();
    } else {
      CountSteps(ticks);
      if ticks < 10 {
        FirstCounts(ticks);
      }
    }
  }

  /** What one event makes of what is believed, and whether it is news. */
  lemma TickBelieved(ticks: nat, wrapped: bool)
    requires ticks < TWO_64
    ensures var oldcount, newcount := CountFromTicks(ticks), CountFromTicks(NextTicks(ticks));
            var e, before := EventAt(oldcount, newcount), Believed(ticks, wrapped);
            && oldcount != newcount
            && (if e.Create? then before + {e.n} else before - {e.n}) ==
               Believed(NextTicks(ticks), wrapped || ticks + 1 == TWO_64)
            && ((e.Create? <==> e.n !in before) <==> !(wrapped && ticks < 4))
  {
    NextCount(ticks);
  }

  lemma ReplayMore(files: set<nat>, events: seq<Event>, e: Event)
    ensures var before := Replay(files, events);
            && Replay(files, events + [e]) == (if e.Create? then before + {e.n} else before - {e.n})
            && (Honest(files, events + [e]) <==> Honest(files, events) && (e.Create? <==> e.n !in before))
  {
    var more := events + [e];
    assert more[..|more| - 1] == events;
  }

  /** After `all` ticks since the counter stood at zero, some of them in the log `events`. */
  ghost predicate InTune(all: nat, ticks: nat, start: set<nat>, events: seq<Event>) {
    && ticks == all % TWO_64
    && Replay(start, events) == Believed(ticks, TWO_64 <= all)
    && (Honest(start, events) <==> all <= TWO_64)
  }

  lemma NextMod64(all: nat)
    ensures (all + 1) % TWO_64 == NextTicks(all % TWO_64)
    ensures TWO_64 <= all + 1 <==> TWO_64 <= all || all % TWO_64 + 1 == TWO_64
    ensures all + 1 <= TWO_64 <==> all <= TWO_64 && !(TWO_64 <= all && all % TWO_64 < 4)
  {
  }

  lemma TickStaysInTune(all: nat, ticks: nat, start: set<nat>, events: seq<Event>)
    requires InTune(all, ticks, start, events)
    ensures var e := EventAt(CountFromTicks(ticks), CountFromTicks(NextTicks(ticks)));
            InTune(all + 1, NextTicks(ticks), start, events + [e])
  {
    NextMod64(all);
    TickBelieved(ticks, TWO_64 <= all);
    ReplayMore(start, events, EventAt(CountFromTicks(ticks), CountFromTicks(NextTicks(ticks))));
  }

  // ------------------------------------------------------------- decimal names

  predicate IsDigit(c: char) {
    '0' <= c <= '9'
  }

  function DigitOf(k: nat): char
    requires k < 10
  {
    '0' + k as char
  }

  /** strconv.FormatUint(n, 10). */
  function Decimal(n: nat): string {
    if n < 10 then [DigitOf(n)] else Decimal(n / 10) + [DigitOf(n % 10)]
  }

  const MAX_UINT: nat := TWO_64 - 1

  /** The number that strconv.ParseUint(s, 10, 0) returns besides its error: zero for what
      is not a number, the greatest one for what is too great. */
  function ParseUint(s: string): nat {
    if s == "" then 0 else ParseDigits(s, 0)
  }

  function ParseDigits(s: string, n: nat): nat {
    if s == "" then n
    else if !IsDigit(s[0]) then 0
    else
      var n' := n * 10 + (s[0] - '0') as nat;
      if TWO_64 <= n' then MAX_UINT else ParseDigits(s[1..], n')
  }

  function StripZeros(s: string): string {
    if s != "" && s[0] == '0' then StripZeros(s[1..]) else s
  }

  lemma {:induction false} DecimalDigits(n: nat)
    ensures Decimal(n) != "" && forall k :: 0 <= k < |Decimal(n)| ==> IsDigit(Decimal(n)[k])
    ensures 0 < n ==> Decimal(n)[0] != '0'
    ensures |Decimal(n)| == 1 <==> n < 10
  {
    if 10 <= n {
      DecimalDigits(n / 10);
    }
  }

  lemma DecimalAppend(n: nat, c: char)
    requires 0 < n && IsDigit(c)
    ensures Decimal(n * 10 + (c - '0') as nat) == Decimal(n) + [c]
  {
  }

  /** What starts with the digits of `n` is no smaller number. */
  lemma {:induction false} DecimalGrows(n: nat, s: string, u: nat)
    requires 0 < n && Decimal(n) + s == Decimal(u)
    ensures n <= u && (s == "" ==> n == u)
    decreases n + |s| + u
  {
    DecimalDigits(n);
    DecimalDigits(u);
    var all := Decimal(u);
    if s != "" {
      assert all[..|all| - 1] == Decimal(n) + s[..|s| - 1] && all[..|all| - 1] == Decimal(u / 10);
      DecimalGrows(n, s[..|s| - 1], u / 10);
    } else if 10 <= n {
      assert all[..|all| - 1] == Decimal(n / 10) && all[..|all| - 1] == Decimal(u / 10);
      assert Decimal(n / 10) + "" == Decimal(u / 10);
      assert all[|all| - 1] == DigitOf(n % 10) && all[|all| - 1] == DigitOf(u % 10);
      DecimalGrows(n / 10, "", u / 10);
    } else {
      assert all[0] == DigitOf(n) && all[0] == DigitOf(u);
    }
  }

  lemma {:induction false} ParseMore(s: string, n: nat, u: nat)
    requires 0 < n < TWO_64 && 0 < u < MAX_UINT
    ensures ParseDigits(s, n) == u <==> Decimal(n) + s == Decimal(u)
    decreases |s|
  {
    if s == "" {
      assert Decimal(n) + s == Decimal(n);
      if Decimal(n) == Decimal(u) {
        DecimalGrows(n, s, u);
      }
    } else if !IsDigit(s[0]) {
      DecimalDigits(u);
      assert (Decimal(n) + s)[|Decimal(n)|] == s[0];
    } else {
      var n' := n * 10 + (s[0] - '0') as nat;
      DecimalAppend(n, s[0]);
      assert Decimal(n) + s == Decimal(n') + s[1..];
      if n' < TWO_64 {
        ParseMore(s[1..], n', u);
      } else if Decimal(n') + s[1..] == Decimal(u) {
        DecimalGrows(n', s[1..], u);
      }
    }
  }

  /** A string is read as `u` exactly when it is the decimal of `u` after leading zeros. */
  lemma {:induction false} ParseExactly(s: string, u: nat)
    requires 0 < u < MAX_UINT
    ensures ParseUint(s) == u <==> StripZeros(s) == Decimal(u)
    decreases |s|
  {
    DecimalDigits(u);
    if s != "" && IsDigit(s[0]) {
      if s[0] == '0' {
        ParseExactly(s[1..], u);
      } else {
        var n := (s[0] - '0') as nat;
        assert Decimal(n) + s[1..] == s;
        ParseMore(s[1..], n, u);
      }
    }
  }

  /** So formatting and parsing undo each other, but a string that is read as `u` is the
      name of `u` exactly when it has no leading zero: "/01" is found and not listed. */
  lemma ParseFormat(s: string, u: nat)
    requires 0 < u < MAX_UINT
    ensures ParseUint(Decimal(u)) == u
    ensures s == Decimal(u) <==> ParseUint(s) == u && s[0] != '0'
  {
    DecimalDigits(u);
    ParseExactly(Decimal(u), u);
    ParseExactly(s, u);
  }

  const NOT_FOUND: nat := MAX_UINT

  class Notifyfs {
    var ticks: nat

    ghost predicate Valid()
      reads this
    {
      ticks < TWO_64
    }

    constructor ()
      ensures Valid() && ticks == 0
    {
      ticks := 0;
    }

    /** `n` turns of the ticker loop, each with one event.  Replaying them gives the files
        that the listing shows then, except at the first four ticks after a wrap of the
        counter; and every event is news until the first tick after a wrap. */
    method Tick(n: nat) returns (events: seq<Event>)
      requires Valid()
      modifies this
      ensures Valid() && ticks == (old(ticks) + n) % TWO_64 && |events| == n
      ensures Replay(UpTo(CountFromTicks(old(ticks))), events) == UpTo(CountFromTicks(ticks)) <==>
              !(TWO_64 <= old(ticks) + n && ticks < 4)
      ensures Honest(UpTo(CountFromTicks(old(ticks))), events) <==> old(ticks) + n <= TWO_64
    {
      events := [];
      ghost var start, first := UpTo(CountFromTicks(ticks)), ticks;
      for i := 0 to n
        invariant Valid() && InTune(first + i, ticks, start, events) && |events| == i
      {
        TickStaysInTune(first + i, ticks, start, events);
        TickBelieved(ticks, TWO_64 <= first + i);
        var oldcount, newcount := CountFromTicks(ticks), CountFromTicks(NextTicks(ticks));
        ticks := NextTicks(ticks);
        if oldcount < newcount {
          events := events + [Create(newcount)];
        } else if oldcount > newcount {
          events := events + [Unlink(oldcount)];
        }
      }
      BelievedMeans(ticks, TWO_64 <= first + n);
    }

    /** Everything that the filler is called with. */
    method Readdir() returns (listing: seq<string>)
      requires Valid()
      ensures var count := CountFromTicks(ticks);
              && |listing| == 2 + count && listing[..2] == [".", ".."]
              && forall u :: u in UpTo(count) ==> listing[1 + u] == Decimal(u)
    {
      listing := [".", ".."];
      var count, u := CountFromTicks(ticks), 1;
      while count >= u
        invariant 1 <= u <= count + 1 && |listing| == 1 + u && listing[..2] == [".", ".."]
        invariant forall k :: 1 <= k < u ==> listing[1 + k] == Decimal(k)
      {
        listing := listing + [Decimal(u)];
        u := u + 1;
      }
    }

    /** A path is found exactly when it names, but for leading zeros, one of the files that
        the listing shows. */
    method Lookup(path: string) returns (found: nat)
      requires Valid() && path != ""
      ensures forall u :: u in UpTo(CountFromTicks(ticks)) ==> (found == u <==> StripZeros(path[1..]) == Decimal(u))
      ensures found != NOT_FOUND ==> found in UpTo(CountFromTicks(ticks))
    {
      var count := CountFromTicks(ticks);
      CountSteps(ticks);
      var index := ParseUint(path[1..]);
      found := if 0 < index && index <= count then index else NOT_FOUND;
      forall u | u in UpTo(count) ensures found == u <==> StripZeros(path[1..]) == Decimal(u) {
        ParseExactly(path[1..], u);
      }
    }
  }
}
