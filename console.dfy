/** The in-memory state of the page script: the `SpyMissionUI` console with
    its operation counters and its bounded, newest-first message history;
    the experience points of the second panel; and the dashboard heading
    chosen from the profile name. */
module Console {
  import opened Js
  import Ciphers

  /** The three buttons of the console. */
  datatype Operation = Encrypt | Decrypt | Reverse

  /** One history entry; the source also stamps it with the local time. */
  datatype HistoryItem = HistoryItem(input: Text, output: Text, operation: Operation, shift: int)

  /** The length past which `addToHistory` drops an entry. */
  const HistoryLimit := 10

  function Min(a: int, b: int): int { if a <= b then a else b }

  /** The history after `addToHistory(item)`: the item goes in front and,
      when that makes the list longer than the limit, the last (oldest)
      entry is dropped. Only one entry is dropped, so a history already
      longer than the limit keeps its length; one within the limit stays
      within it. */
  function Pushed(history: seq<HistoryItem>, item: HistoryItem): (h: seq<HistoryItem>)
    ensures |h| > 0 && h[0] == item
    ensures |h| == if |history| < HistoryLimit then |history| + 1 else |history|
    ensures h[1..] == history[..|h| - 1]
    ensures |history| <= HistoryLimit ==> |h| == Min(|history| + 1, HistoryLimit)
  {
    var grown := [item] + history;
    if |grown| > HistoryLimit then grown[..|grown| - 1] else grown
  }

  /** The history after a run of `addToHistory` calls, oldest call first. */
  function PushedAll(history: seq<HistoryItem>, items: seq<HistoryItem>): seq<HistoryItem>
    decreases |items|
  {
    if items == [] then history else PushedAll(Pushed(history, items[0]), items[1..])
  }

  /** Starting within the limit, the history always holds the most recent
      entries, newest first: entry k is the k-th latest call's item. */
  lemma {:induction false} PushedAllNewestFirst(history: seq<HistoryItem>, items: seq<HistoryItem>, k: int)
    requires |history| <= HistoryLimit
    requires 0 <= k < Min(|items|, HistoryLimit)
    ensures |PushedAll(history, items)| == Min(|history| + |items|, HistoryLimit)
    ensures PushedAll(history, items)[k] == items[|items| - 1 - k]
    decreases |items|
  {
    PushedAllLength(history, items);
    var n := |items|;
    var prefix := items[..n - 1];
    var previous := PushedAll(history, prefix);
    var result := PushedAll(history, items);
    assert result == Pushed(previous, items[n - 1]) by {
      assert prefix + [items[n - 1]] == items;
      PushedAllSplit(history, prefix, [items[n - 1]]);
      assert [items[n - 1]][1..] == [];
    }
    if k > 0 {
      PushedAllLength(history, prefix);
      PushedAllNewestFirst(history, prefix, k - 1);
      assert result[k] == result[1..][k - 1] == previous[k - 1];
    }
  }

  /** The length of the history after a run of calls. */
  lemma {:induction false} PushedAllLength(history: seq<HistoryItem>, items: seq<HistoryItem>)
    requires |history| <= HistoryLimit
    ensures |PushedAll(history, items)| == Min(|history| + |items|, HistoryLimit)
    decreases |items|
  {
    if items != [] {
      PushedAllLength(Pushed(history, items[0]), items[1..]);
    }
  }

  /** A run of calls is the first part of the run followed by the rest. */
  lemma {:induction false} PushedAllSplit(history: seq<HistoryItem>, front: seq<HistoryItem>, back: seq<HistoryItem>)
    ensures PushedAll(history, front + back) == PushedAll(PushedAll(history, front), back)
    decreases |front|
  {
    if front != [] {
      assert (front + back)[0] == front[0];
      assert (front + back)[1..] == front[1..] + back;
      PushedAllSplit(Pushed(history, front[0]), front[1..], back);
    } else {
      assert front + back == back;
    }
  }

  /** The console of the page (`SpyMissionUI`), reduced to the state its
      operations change: the history, the two counters and the output box. */
  class SpyMissionUI {
    var messageHistory: seq<HistoryItem>
    var encryptCount: int
    var decryptCount: int
    var output: Text

    /** The console starts with the history `loadHistory` restored (empty
        when nothing was saved) and the counters the page shows. */
    constructor (restored: seq<HistoryItem>, encryptShown: int, decryptShown: int)
      ensures messageHistory == restored && output == []
      ensures encryptCount == encryptShown && decryptCount == decryptShown
    {
      messageHistory := restored;
      encryptCount := encryptShown;
      decryptCount := decryptShown;
      output := [];
    }

    /** `addToHistory`: `unshift` the new entry, then `pop` once if the
        history has grown past the limit. */
    method AddToHistory(input: Text, result: Text, operation: Operation, shift: int)
      modifies this`messageHistory
      ensures messageHistory == Pushed(old(messageHistory), HistoryItem(input, result, operation, shift))
    {
      messageHistory := [HistoryItem(input, result, operation, shift)] + messageHistory;
      if |messageHistory| > HistoryLimit {
        messageHistory := messageHistory[..|messageHistory| - 1];
      }
    }

    /** `handleOperation(type)`: run the chosen transform on the input, bump
        the counter of that operation (reverse has none), show the result
        and record it in the history. */
    method HandleOperation(op: Operation, text: Text, shift: int)
      modifies this
      ensures encryptCount == old(encryptCount) + (if op == Encrypt then 1 else 0)
      ensures decryptCount == old(decryptCount) + (if op == Decrypt then 1 else 0)
      ensures output == match op
        case Encrypt => Ciphers.Encrypt(text, shift)
        case Decrypt => Ciphers.Decrypt(text, shift)
        case Reverse => Ciphers.Reverse(text)
      ensures messageHistory == Pushed(old(messageHistory), HistoryItem(text, output, op, shift))
    {
      var result: Text;
      match op {
        case Encrypt =>
          result := Ciphers.Encrypt(text, shift);
          encryptCount := encryptCount + 1;
        case Decrypt =>
          result := Ciphers.Decrypt(text, shift);
          decryptCount := decryptCount + 1;
        case Reverse =>
          result := Ciphers.Reverse(text);
      }
      output := result;
      AddToHistory(text, result, op, shift);
    }
  }

  /** The experience points of the second cipher panel (the global `xp`)
      and the value of its progress bar. */
  class Gamification {
    var xp: int
    var xpBar: int

    /** The bar shows the points modulo 100 and the points never drop below zero. */
    ghost predicate Valid()
      reads this
    {
      xp >= 0 && xpBar == xp % 100
    }

    constructor ()
      ensures Valid() && xp == 0
    {
      xp := 0;
      xpBar := 0;
    }

    /** `updateXP(amount)`: add the points and set the bar to `xp % 100`. */
    method UpdateXP(amount: int)
      modifies this
      ensures xp == old(xp) + amount
      ensures xpBar == Rem(xp, 100)
      ensures xp >= 0 ==> 0 <= xpBar < 100
      ensures old(Valid()) && amount >= 0 ==> Valid()
    {
      xp := xp + amount;
      xpBar := Rem(xp, 100);
    }

    /** The click handlers of the panel's encrypt, decrypt and reverse
        buttons: the text handed to the typewriter `typeOutput`, and 10, 10
        or 5 points. */
    method CipherButton(op: Operation, text: Text, shift: int) returns (shown: Text)
      requires Valid()
      modifies this
      ensures Valid()
      ensures xp == old(xp) + (if op == Reverse then 5 else 10)
      ensures shown == match op
        case Encrypt => Ciphers.Cipher(text, shift, false)
        case Decrypt => Ciphers.Cipher(text, shift, true)
        case Reverse => Ciphers.Reverse(text)
    {
      match op {
        case Encrypt =>
          shown := Ciphers.Cipher(text, shift, false);
          UpdateXP(10);
        case Decrypt =>
          shown := Ciphers.Cipher(text, shift, true);
          UpdateXP(10);
        case Reverse =>
          shown := Ciphers.Reverse(text);
          UpdateXP(5);
      }
    }
  }

  /** The dashboard heading that `saveProfile` and `loadProfile` set: the
      name followed by " Dashboard", or "Agent Dashboard" for an empty name. */
  function DashboardTitle(name: string): (title: string)
    ensures |title| >= 10 && title[|title| - 10..] == " Dashboard"
    ensures title[..|title| - 10] == if name == "" then "Agent" else name
  {
    if name != "" then name + " Dashboard" else "Agent Dashboard"
  }

  /** Different non-empty names give different headings; the only collision
      is between the empty name and the name "Agent". */
  lemma DashboardTitleInjective(a: string, b: string)
    requires DashboardTitle(a) == DashboardTitle(b)
    ensures a == b || {a, b} == {"", "Agent"}
  {
    var ta, tb := DashboardTitle(a), DashboardTitle(b);
    assert ta[..|ta| - 10] == tb[..|tb| - 10];
  }
}
