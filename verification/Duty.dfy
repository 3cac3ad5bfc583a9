/** The airtime budget: `duty_allows` and `relay_ctrl_note_tx` in src/relay_control.cpp. */
module Duty {
  import opened Common

  const DUTY_WINDOW_MS := 60000

  datatype Window = Window(start: uint32, airtime: uint32)

  predicate Over(w: Window, now: uint32) {
    Sub32(now, w.start) >= DUTY_WINDOW_MS
  }

  /** May a transmission start? A cap of 0 means no limit. */
  predicate Allows(w: Window, capPct: byte, now: uint32) {
    capPct == 0 || Over(w, now) || w.airtime < DUTY_WINDOW_MS * capPct / 100
  }

  function Noted(w: Window, now: uint32, airtime: uint32): Window {
    if Over(w, now) then Window(now, airtime)
    else Window(w.start, (w.airtime + airtime) % UINT32)
  }

  class DutyMeter {
    var windowStart: uint32
    var windowAirtime: uint32
    var relayedCount: nat

    function Contents(): Window
      reads this
    {
      Window(windowStart, windowAirtime)
    }

    constructor (bootMs: uint32)
      ensures Contents() == Window(bootMs, 0) && relayedCount == 0
    {
      windowStart, windowAirtime, relayedCount := bootMs, 0, 0;
    }

    method DutyAllows(capPct: byte, now: uint32) returns (ok: bool)
      ensures ok == Allows(Contents(), capPct, now)
      ensures var elapsed := if windowStart <= now then now - windowStart else now + 0x1_0000_0000 - windowStart;
              ok <==> capPct == 0 || 60000 <= elapsed || windowAirtime < 600 * capPct as int
    {
      if capPct == 0 {
        return true;
      }
      if Sub32(now, windowStart) >= DUTY_WINDOW_MS {
        return true;
      }
      var allowed := DUTY_WINDOW_MS * capPct / 100;
      return windowAirtime < allowed;
    }

    method NoteTx(airtime: uint32, now: uint32)
      modifies this
      ensures Contents() == Noted(old(Contents()), now, airtime) && relayedCount == old(relayedCount) + 1
      ensures var start := old(windowStart);
              var elapsed := if start <= now then now - start else now + 0x1_0000_0000 - start;
              windowStart == (if 60000 <= elapsed then now else start)
              && windowAirtime == (if 60000 <= elapsed then airtime else (old(windowAirtime) + airtime) % 0x1_0000_0000)
    {
      if Sub32(now, windowStart) >= DUTY_WINDOW_MS {
        windowStart := now;
        windowAirtime := 0;
      }
      windowAirtime := (windowAirtime + airtime) % UINT32;
      relayedCount := relayedCount + 1;
    }
  }

  // ---- Runs ----

  /** A transmission: when it was permitted, when it was noted, how long it took. */
  datatype Tx = Tx(checkedAt: uint32, at: uint32, airtime: uint32)

  function WindowAfter(boot: uint32, txs: seq<Tx>): Window {
    if txs == [] then Window(boot, 0)
    else
      var tx := txs[|txs| - 1];
      Noted(WindowAfter(boot, txs[..|txs| - 1]), tx.at, tx.airtime)
  }

  /** Every transmission was permitted before it was noted, with no other noted in
      between, by a clock that neither goes back nor rolls over; none is longer than
      `longest`. */
  ghost predicate Disciplined(boot: uint32, capPct: byte, longest: nat, txs: seq<Tx>) {
    (forall k :: 0 <= k < |txs| ==> boot <= txs[k].checkedAt <= txs[k].at && txs[k].airtime <= longest)
    && (forall k, l :: 0 <= k < l < |txs| ==> txs[k].at <= txs[l].checkedAt)
    && (forall k :: 0 <= k < |txs| ==> Allows(WindowAfter(boot, txs[..k]), capPct, txs[k].checkedAt))
  }

  /** The airtime of transmissions i to j - 1. */
  function Airtime(txs: seq<Tx>, i: nat, j: nat): nat
    requires i <= j <= |txs|
  {
    if i == j then 0 else Airtime(txs, i, j - 1) + txs[j - 1].airtime
  }

  /** What one window can carry: just under the cap, and one transmission that
      started there. */
  function WindowBound(capPct: byte, longest: nat): int {
    600 * capPct - 1 + longest
  }

  lemma NextWindow(boot: uint32, txs: seq<Tx>, j: nat, w: Window)
    requires j < |txs| && WindowAfter(boot, txs[..j]) == w
    ensures WindowAfter(boot, txs[..j + 1]) == Noted(w, txs[j].at, txs[j].airtime)
  {
    assert txs[..j + 1][..j] == txs[..j];
  }

  lemma AllowsPlain(w: Window, capPct: byte, now: uint32)
    requires w.start <= now && 1 <= capPct
    ensures Allows(w, capPct, now) <==> now - w.start >= 60000 || w.airtime < 600 * capPct
  {
  }

  lemma NotedPlain(w: Window, now: uint32, airtime: uint32)
    requires w.start <= now && w.airtime + airtime < UINT32
    ensures Noted(w, now, airtime)
            == if now - w.start >= 60000 then Window(now, airtime) else Window(w.start, w.airtime + airtime)
  {
  }

  /** One permitted transmission: a fresh window, or room left in the old one. */
  lemma OneNote(w: Window, capPct: byte, longest: nat, tx: Tx, w': Window)
    requires w.start <= tx.checkedAt <= tx.at && tx.airtime <= longest && 1 <= capPct
    requires Allows(w, capPct, tx.checkedAt) && w' == Noted(w, tx.at, tx.airtime)
    requires w.airtime <= WindowBound(capPct, longest) && WindowBound(capPct, longest) + longest < UINT32
    ensures w' == if tx.at - w.start >= 60000 then Window(tx.at, tx.airtime)
                  else Window(w.start, w.airtime + tx.airtime)
    ensures w'.airtime <= WindowBound(capPct, longest) && 0 <= tx.at - w'.start < 60000
  {
    AllowsPlain(w, capPct, tx.checkedAt);
    NotedPlain(w, tx.at, tx.airtime);
  }

  /** No window exceeds its bound, and the latest note lies within its window. */
  lemma {:induction false} WindowWithinBound(boot: uint32, capPct: byte, longest: nat, txs: seq<Tx>, j: nat)
    requires Disciplined(boot, capPct, longest, txs) && 1 <= capPct <= 100 && j <= |txs|
    requires WindowBound(capPct, longest) + longest < UINT32
    ensures WindowAfter(boot, txs[..j]).airtime <= WindowBound(capPct, longest)
    ensures j == 0 ==> WindowAfter(boot, txs[..j]) == Window(boot, 0)
    ensures 0 < j ==> 0 <= txs[j - 1].at - WindowAfter(boot, txs[..j]).start < 60000
  {
    if 0 < j {
      WindowWithinBound(boot, capPct, longest, txs, j - 1);
      NextWindow(boot, txs, j - 1, WindowAfter(boot, txs[..j - 1]));
      OneNote(WindowAfter(boot, txs[..j - 1]), capPct, longest, txs[j - 1], WindowAfter(boot, txs[..j]));
    }
  }

  /** The airtime of transmissions i to the latest against the window after them:
      nothing new has begun, or one window has, or more than 60 seconds have passed. */
  ghost predicate Spread(bound: int, w: Window, from: uint32, latest: uint32, sum: nat) {
    (w.start <= from && sum <= w.airtime)
    || (from < w.start && sum <= bound + w.airtime)
    || from + 60000 < latest
  }

  lemma SpreadStep(bound: int, w: Window, w': Window, from: uint32, latest: uint32, tx: Tx, sum: nat)
    requires Spread(bound, w, from, latest, sum) && w.airtime <= bound
    requires from <= latest <= tx.at && latest < w.start + 60000 && w.airtime + tx.airtime < UINT32
    requires w' == if tx.at - w.start >= 60000 then Window(tx.at, tx.airtime)
                   else Window(w.start, w.airtime + tx.airtime)
    ensures Spread(bound, w', from, tx.at, sum + tx.airtime)
  {
  }

  lemma {:induction false} SpreadHolds(boot: uint32, capPct: byte, longest: nat, txs: seq<Tx>, i: nat, j: nat)
    requires Disciplined(boot, capPct, longest, txs) && 1 <= capPct <= 100 && i < j <= |txs|
    requires WindowBound(capPct, longest) + longest < UINT32
    ensures Spread(WindowBound(capPct, longest), WindowAfter(boot, txs[..j]), txs[i].at, txs[j - 1].at,
                   Airtime(txs, i, j))
    decreases j
  {
    var w, w', tx := WindowAfter(boot, txs[..j - 1]), WindowAfter(boot, txs[..j]), txs[j - 1];
    WindowWithinBound(boot, capPct, longest, txs, j - 1);
    NextWindow(boot, txs, j - 1, w);
    OneNote(w, capPct, longest, tx, w');
    if i + 1 < j {
      SpreadHolds(boot, capPct, longest, txs, i, j - 1);
      assert txs[j - 2].at <= tx.checkedAt && (i == j - 2 || txs[i].at <= txs[j - 2].checkedAt);
      SpreadStep(WindowBound(capPct, longest), w, w', txs[i].at, txs[j - 2].at, tx, Airtime(txs, i, j - 1));
    } else {
      assert Airtime(txs, i, i) == 0 && Airtime(txs, i, j) == tx.airtime;
    }
  }

  /** Any 60 second interval carries at most twice what one window can. */
  lemma SlidingBound(boot: uint32, capPct: byte, longest: nat, txs: seq<Tx>, i: nat, j: nat)
    requires Disciplined(boot, capPct, longest, txs) && 1 <= capPct <= 100
    requires WindowBound(capPct, longest) + longest < UINT32
    requires i < j <= |txs| && txs[j - 1].at - txs[i].at <= 60000
    ensures Airtime(txs, i, j) <= 2 * WindowBound(capPct, longest)
  {
    SpreadHolds(boot, capPct, longest, txs, i, j);
    WindowWithinBound(boot, capPct, longest, txs, j);
  }

  // ---- A run that attains the bound ----

  /** The air is never used twice at once: each transmission is permitted before it
      starts and noted when it ends. */
  ghost predicate OneAtATime(txs: seq<Tx>) {
    forall k :: 0 <= k < |txs| ==> txs[k].checkedAt + txs[k].airtime <= txs[k].at
  }

  /** The airtime after which a cap still permits one more transmission. */
  function Room(capPct: byte): int {
    600 * capPct - 1
  }

  /** The k-th transmission of the run: the first window is filled at its very end,
      the second from its beginning, each by 1 ms transmissions and one of the longest. */
  function PackedTx(capPct: byte, longest: nat, k: nat): Tx
    requires 1 <= capPct <= 100 && 2 * WindowBound(capPct, longest) <= 60000
    requires k < 2 * Room(capPct) + 2
  {
    var u := Room(capPct);
    var from := 59999 - u - longest;
    if k < u then Tx(from + k, from + k + 1, 1)
    else if k == u then Tx(from + u, from + u + longest, longest)
    else if k < 2 * u + 1 then Tx(60000 + (k - u - 1), 60000 + (k - u), 1)
    else Tx(60000 + u, 60000 + u + longest, longest)
  }

  function PackedRun(capPct: byte, longest: nat): (txs: seq<Tx>)
    requires 1 <= capPct <= 100 && 2 * WindowBound(capPct, longest) <= 60000
    ensures |txs| == 2 * Room(capPct) + 2
    ensures forall k :: 0 <= k < |txs| ==> txs[k] == PackedTx(capPct, longest, k)
  {
    seq(2 * Room(capPct) + 2, k requires 0 <= k < 2 * Room(capPct) + 2 => PackedTx(capPct, longest, k))
  }

  function PackedWindow(capPct: byte, longest: nat, k: nat): Window
    requires 1 <= capPct <= 100 && 2 * WindowBound(capPct, longest) <= 60000 && k <= 2 * Room(capPct) + 2
  {
    var u := Room(capPct);
    if k <= u then Window(0, k)
    else if k == u + 1 then Window(0, u + longest)
    else if k <= 2 * u + 1 then Window(60001, k - u - 1)
    else Window(60001, u + longest)
  }

  lemma PackedTimes(capPct: byte, longest: nat, k: nat, l: nat)
    requires 1 <= capPct <= 100 && 1 <= longest && 2 * WindowBound(capPct, longest) <= 60000
    requires k < l < 2 * Room(capPct) + 2
    ensures PackedTx(capPct, longest, k).at <= PackedTx(capPct, longest, l).checkedAt
  {
  }

  lemma PackedStep(capPct: byte, longest: nat, k: nat)
    requires 1 <= capPct <= 100 && 2 * WindowBound(capPct, longest) <= 60000 && k < 2 * Room(capPct) + 2
    ensures var w, tx := PackedWindow(capPct, longest, k), PackedTx(capPct, longest, k);
            Allows(w, capPct, tx.checkedAt)
            && PackedWindow(capPct, longest, k + 1) == Noted(w, tx.at, tx.airtime)
  {
    var w, tx := PackedWindow(capPct, longest, k), PackedTx(capPct, longest, k);
    AllowsPlain(w, capPct, tx.checkedAt);
    NotedPlain(w, tx.at, tx.airtime);
  }

  lemma {:induction false} PackedWindows(capPct: byte, longest: nat, k: nat)
    requires 1 <= capPct <= 100 && 2 * WindowBound(capPct, longest) <= 60000 && k <= 2 * Room(capPct) + 2
    ensures WindowAfter(0, PackedRun(capPct, longest)[..k]) == PackedWindow(capPct, longest, k)
  {
    var txs := PackedRun(capPct, longest);
    if k == 0 {
      assert txs[..0] == [];
    } else {
      PackedWindows(capPct, longest, k - 1);
      PackedStep(capPct, longest, k - 1);
      NextWindow(0, txs, k - 1, PackedWindow(capPct, longest, k - 1));
    }
  }

  lemma {:induction false} PackedAirtime(capPct: byte, longest: nat, k: nat)
    requires 1 <= capPct <= 100 && 2 * WindowBound(capPct, longest) <= 60000 && k <= 2 * Room(capPct) + 2
    ensures Airtime(PackedRun(capPct, longest), 0, k)
            == k + (if Room(capPct) < k then longest - 1 else 0) + if 2 * Room(capPct) + 1 < k then longest - 1 else 0
  {
    if 0 < k {
      PackedAirtime(capPct, longest, k - 1);
    }
  }

  lemma PackedOneByOne(capPct: byte, longest: nat)
    requires 1 <= capPct <= 100 && 1 <= longest && 2 * WindowBound(capPct, longest) <= 60000
    ensures var txs := PackedRun(capPct, longest);
            OneAtATime(txs)
            && (forall k :: 0 <= k < |txs| ==> txs[k].checkedAt <= txs[k].at && txs[k].airtime <= longest)
            && (forall k, l :: 0 <= k < l < |txs| ==> txs[k].at <= txs[l].checkedAt)
  {
    var txs := PackedRun(capPct, longest);
    forall k, l | 0 <= k < l < |txs| ensures txs[k].at <= txs[l].checkedAt {
      PackedTimes(capPct, longest, k, l);
    }
  }

  lemma PackedIsDisciplined(capPct: byte, longest: nat)
    requires 1 <= capPct <= 100 && 1 <= longest && 2 * WindowBound(capPct, longest) <= 60000
    ensures Disciplined(0, capPct, longest, PackedRun(capPct, longest))
  {
    var txs := PackedRun(capPct, longest);
    PackedOneByOne(capPct, longest);
    forall k | 0 <= k < |txs| ensures Allows(WindowAfter(0, txs[..k]), capPct, txs[k].checkedAt) {
      PackedWindows(capPct, longest, k);
      PackedStep(capPct, longest, k);
      assert txs[k] == PackedTx(capPct, longest, k);
    }
  }

  /** The bound is attained for every cap and every longest transmission for which
      two full windows fit the interval: a window filled at its end and the next one
      filled at its beginning meet, with one transmission in the air at a time. */
  lemma SlidingBoundAttained(capPct: byte, longest: nat) returns (txs: seq<Tx>)
    requires 1 <= capPct <= 100 && 1 <= longest && 2 * WindowBound(capPct, longest) <= 60000
    ensures txs != [] && Disciplined(0, capPct, longest, txs) && OneAtATime(txs)
    ensures txs[|txs| - 1].at - txs[0].at <= 60000
    ensures Airtime(txs, 0, |txs|) == 2 * WindowBound(capPct, longest)
  {
    txs := PackedRun(capPct, longest);
    PackedOneByOne(capPct, longest);
    PackedIsDisciplined(capPct, longest);
    PackedAirtime(capPct, longest, |txs|);
  }
}
