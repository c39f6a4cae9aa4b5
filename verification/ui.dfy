/**
 * The terminal helpers of src/lib/ui.ts that hold logic: choosing between
 * a typed answer and a default, and the arrow-key list picker. Drawing,
 * raw mode and the cursor escapes are not part of this model; the picker
 * is the state machine driven by the key strings it receives.
 */
module Ui {
  import opened Wrappers

  /** `pickOrDefault(input, fallback)`: the typed answer unless it is
      empty. */
  function PickOrDefault(input: string, fallback: string): (r: string)
    ensures |input| > 0 ==> r == input
    ensures |input| == 0 ==> r == fallback
  {
    if |input| > 0 then input else fallback
  }

  /** Picking is idempotent: offering the picked value again with the same
      fallback picks it again, and an empty answer keeps the fallback. */
  lemma PickIdempotent(input: string, fallback: string)
    ensures PickOrDefault(PickOrDefault(input, fallback), fallback) == PickOrDefault(input, fallback)
    ensures PickOrDefault("", fallback) == fallback
  {
  }

  /** The answer is empty only when both the input and the fallback are. */
  lemma PickEmpty(input: string, fallback: string)
    ensures PickOrDefault(input, fallback) == "" <==> input == "" && fallback == ""
  {
  }

  // ---------------------------------------------------------------------
  // The list picker
  // ---------------------------------------------------------------------

  const UpKey: string := "\U{1b}[A"
  const DownKey: string := "\U{1b}[B"
  const InterruptKey: string := "\U{03}"

  /** How the picker reads one chunk of raw input. */
  datatype Key = Up | Down | Enter | Interrupt | Ignored

  function KeyOf(data: string): (k: Key)
    ensures k == Enter <==> data == "\r" || data == "\n"
    ensures k == Ignored <==> data !in {UpKey, DownKey, "\r", "\n", InterruptKey}
  {
    if data == UpKey then Up
    else if data == DownKey then Down
    else if data == "\r" || data == "\n" then Enter
    else if data == InterruptKey then Interrupt
    else Ignored
  }

  /** The picker is waiting with an item highlighted, has resolved with an
      item, or has ended the process (exit code 0). */
  datatype Picker = Picking(index: nat) | Chosen(item: string) | Exited

  /** A picker state reachable over `items`: the highlight is on the list
      and a resolved item is one of the items. */
  predicate ValidFor(items: seq<string>, state: Picker) {
    (state.Picking? ==> state.index < |items|) && (state.Chosen? ==> state.item in items)
  }

  /** The first position of `x` in `items`. */
  function FirstIndex(items: seq<string>, x: string): (r: Option<nat>)
    ensures r.None? <==> x !in items
    ensures r.Some? ==> r.value < |items| && items[r.value] == x && x !in items[..r.value]
    decreases |items|
  {
    if |items| == 0 then None
    else if items[0] == x then Some(0)
    else
      match FirstIndex(items[1..], x)
      case None => None
      case Some(k) =>
        assert items[..k + 1] == [items[0]] + items[1..][..k];
        Some(k + 1)
  }

  /** `Math.max(0, items.indexOf(defaultItem))`: the default's first
      position, or the top of the list when it is not listed. */
  function InitialIndex(items: seq<string>, default: string): (i: nat)
    ensures default in items ==> i < |items| && items[i] == default && default !in items[..i]
    ensures default !in items ==> i == 0
  {
    match FirstIndex(items, default)
    case None => 0
    case Some(k) => k
  }

  /** `(index - 1 + n) % n`; the operands are never negative, so the
      remainder agrees with JavaScript's. */
  function Above(i: nat, n: nat): (r: nat)
    requires i < n
    ensures r < n
    ensures i > 0 ==> r == i - 1
    ensures i == 0 ==> r == n - 1
  {
    (i - 1 + n) % n
  }

  /** `(index + 1) % n` */
  function Below(i: nat, n: nat): (r: nat)
    requires i < n
    ensures r < n
    ensures i + 1 < n ==> r == i + 1
    ensures i + 1 == n ==> r == 0
  {
    (i + 1) % n
  }

  /** Up undoes Down and Down undoes Up. */
  lemma UpDownInverse(i: nat, n: nat)
    requires i < n
    ensures Above(Below(i, n), n) == i
    ensures Below(Above(i, n), n) == i
  {
  }

  /** `k` presses of Down. */
  function Downs(i: nat, n: nat, k: nat): (r: nat)
    requires i < n
    ensures r < n
    decreases k
  {
    if k == 0 then i else Downs(Below(i, n), n, k - 1)
  }

  /** Up to a full lap of Down presses moves the highlight `k` places,
      wrapping round once past the end. */
  lemma {:induction false} DownsWrap(i: nat, n: nat, k: nat)
    requires i < n && k <= n
    ensures Downs(i, n, k) == if i + k < n then i + k else i + k - n
    decreases k
  {
    if k > 0 {
      DownsWrap(Below(i, n), n, k - 1);
    }
  }

  /** A full lap of Down presses comes back to the start. */
  lemma FullLap(i: nat, n: nat)
    requires i < n
    ensures Downs(i, n, n) == i
  {
    DownsWrap(i, n, n);
  }

  /** `onKey(data)`: Up and Down move the highlight round the list, Enter
      resolves with the highlighted item, Ctrl+C exits, and any other
      input is ignored. Once the picker has resolved or exited, it no
      longer listens. */
  function Step(items: seq<string>, state: Picker, data: string): (r: Picker)
    requires |items| > 0 && ValidFor(items, state)
    ensures ValidFor(items, r)
    ensures !state.Picking? ==> r == state
    ensures state.Picking? && KeyOf(data) == Ignored ==> r == state
    ensures state.Picking? && KeyOf(data) == Enter ==> r == Chosen(items[state.index])
  {
    match state
    case Picking(i) =>
      (match KeyOf(data)
       case Up => Picking(Above(i, |items|))
       case Down => Picking(Below(i, |items|))
       case Enter => Chosen(items[i])
       case Interrupt => Exited
       case Ignored => state)
    case _ => state
  }

  /** The picker after a sequence of input chunks. */
  function Run(items: seq<string>, state: Picker, keys: seq<string>): (r: Picker)
    requires |items| > 0 && ValidFor(items, state)
    ensures ValidFor(items, r)
    decreases |keys|
  {
    if |keys| == 0 then state else Run(items, Step(items, state, keys[0]), keys[1..])
  }

  /** `selectFromList(label, items, defaultItem)` fed the given input
      chunks: the resolved item is always one of the items. */
  function SelectFromList(items: seq<string>, default: string, keys: seq<string>): (r: Picker)
    requires |items| > 0
    ensures r.Chosen? ==> r.item in items
    ensures keys == [] ==> r == Picking(InitialIndex(items, default))
  {
    Run(items, Picking(InitialIndex(items, default)), keys)
  }

  function Repeat(key: string, k: nat): (r: seq<string>)
    ensures |r| == k
    ensures forall j :: 0 <= j < k ==> r[j] == key
  {
    if k == 0 then [] else [key] + Repeat(key, k - 1)
  }

  lemma {:induction false} RunDowns(items: seq<string>, i: nat, k: nat)
    requires |items| > 0 && i < |items|
    ensures Run(items, Picking(i), Repeat(DownKey, k)) == Picking(Downs(i, |items|, k))
    decreases k
  {
    if k > 0 {
      RunDowns(items, Below(i, |items|), k - 1);
    }
  }

  lemma RunAppend(items: seq<string>, state: Picker, a: seq<string>, b: seq<string>)
    requires |items| > 0 && ValidFor(items, state)
    ensures Run(items, state, a + b) == Run(items, Run(items, state, a), b)
    decreases |a|
  {
    if |a| > 0 {
      assert (a + b)[0] == a[0] && (a + b)[1..] == a[1..] + b;
      RunAppend(items, Step(items, state, a[0]), a[1..], b);
    } else {
      assert a + b == b;
    }
  }

  /** Pressing Down `k` times (at most once round the list) and then
      Enter chooses the item `k` places below the default, wrapping round
      the end of the list. */
  lemma DownsThenEnter(items: seq<string>, default: string, k: nat)
    requires |items| > 0 && k <= |items|
    ensures var i := InitialIndex(items, default);
            SelectFromList(items, default, Repeat(DownKey, k) + ["\r"])
            == Chosen(items[if i + k < |items| then i + k else i + k - |items|])
  {
    var i := InitialIndex(items, default);
    assert i < |items| by {
      assert default in items || i == 0;
    }
    RunAppend(items, Picking(i), Repeat(DownKey, k), ["\r"]);
    RunDowns(items, i, k);
    DownsWrap(i, |items|, k);
  }

  /** Once resolved or exited, the picker ignores all further input. */
  lemma SettledStays(items: seq<string>, state: Picker, keys: seq<string>)
    requires |items| > 0 && ValidFor(items, state) && !state.Picking?
    ensures Run(items, state, keys) == state
    decreases |keys|
  {
    if |keys| > 0 {
      SettledStays(items, state, keys[1..]);
    }
  }
}
