/** Keyboard navigation over the results list: the keys the input handles
    and the index arithmetic of ArrowDown and ArrowUp. An index of -1 means
    that nothing is highlighted. */
module Navigation {

  /** The keys the input's `onKeyDown` tells apart; every other key is
      `OtherKey`. */
  datatype Key = Enter | ArrowDown | ArrowUp | OtherKey(name: string)

  /** `Math.min(prevIndex + 1, characters.length - 1)`. */
  function ArrowDownIndex(prev: int, count: nat): (next: int)
    ensures next <= prev + 1 && next <= count - 1
    ensures next == prev + 1 || next == count - 1
    ensures -1 <= prev ==> -1 <= next
    ensures count == 0 && -1 <= prev ==> next == -1
  {
    if prev + 1 < count - 1 then prev + 1 else count - 1
  }

  /** `Math.max(prevIndex - 1, -1)`. */
  function ArrowUpIndex(prev: int): (next: int)
    ensures -1 <= next && prev - 1 <= next
    ensures next == prev - 1 || next == -1
    ensures -1 <= prev ==> next < prev || next == -1
  {
    if prev - 1 > -1 then prev - 1 else -1
  }

  /** Both arrows keep an index that lies in [-1, count - 1] inside it. */
  lemma ArrowsKeepRange(prev: int, count: nat)
    requires -1 <= prev <= count - 1
    ensures -1 <= ArrowDownIndex(prev, count) <= count - 1
    ensures -1 <= ArrowUpIndex(prev) <= count - 1
  {
  }

  /** The index after `presses` ArrowDown presses from `start`. */
  function DownPresses(start: int, count: nat, presses: nat): int {
    if presses == 0 then start else ArrowDownIndex(DownPresses(start, count, presses - 1), count)
  }

  /** The index after `presses` ArrowUp presses from `start`. */
  function UpPresses(start: int, presses: nat): int {
    if presses == 0 then start else ArrowUpIndex(UpPresses(start, presses - 1))
  }

  /** From no highlight, k ArrowDown presses highlight item k - 1 until the
      last item, where the highlight stays. */
  lemma {:induction false} DownPressesFromNone(count: nat, presses: nat)
    ensures DownPresses(-1, count, presses) == if presses - 1 < count - 1 then presses - 1 else count - 1
  {
    if presses > 0 {
      DownPressesFromNone(count, presses - 1);
    }
  }

  /** From any index at or above -1, k ArrowUp presses move the highlight up
      k places until it reaches -1, where it stays. */
  lemma {:induction false} UpPressesFrom(start: int, presses: nat)
    requires -1 <= start
    ensures UpPresses(start, presses) == if start - presses > -1 then start - presses else -1
  {
    if presses > 0 {
      UpPressesFrom(start, presses - 1);
    }
  }
}
