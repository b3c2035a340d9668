/** The message-strength meter: `updateStrengthIndicator` adds 25 for each
    of four tests the input passes, and `getStrengthLabel` turns the score
    into one of four words. */
module Strength {
  import opened Js

  /** What `text.match(/[A-Z]/)` finds: some code unit is an upper-case letter. */
  predicate HasUpper(text: Text) {
    exists i | 0 <= i < |text| :: IsUpper(text[i])
  }

  /** What `text.match(/[a-z]/)` finds. */
  predicate HasLower(text: Text) {
    exists i | 0 <= i < |text| :: IsLower(text[i])
  }

  /** What `text.match(/[0-9]/)` finds. */
  predicate HasDigit(text: Text) {
    exists i | 0 <= i < |text| :: IsDigit(text[i])
  }

  /** The four tests of the meter, in the order the source makes them:
      longer than 8, contains [A-Z], contains [a-z], contains [0-9]. */
  function Conditions(text: Text): seq<bool> {
    [|text| > 8, HasUpper(text), HasLower(text), HasDigit(text)]
  }

  function Point(b: bool): nat { if b then 1 else 0 }

  /** The number of tests that hold. */
  function CountHolding(tests: seq<bool>): (n: nat)
    ensures n <= |tests|
    ensures n == 0 <==> forall i | 0 <= i < |tests| :: !tests[i]
  {
    if tests == [] then 0 else Point(tests[0]) + CountHolding(tests[1..])
  }

  /** Counting four tests is adding one point for each that holds. */
  lemma CountFour(a: bool, b: bool, c: bool, d: bool)
    ensures CountHolding([a, b, c, d]) == Point(a) + Point(b) + Point(c) + Point(d)
  {
    assert [a, b, c, d][1..] == [b, c, d];
    assert [b, c, d][1..] == [c, d];
    assert [c, d][1..] == [d];
    assert [d][1..] == [];
    assert CountHolding([d]) == Point(d);
    assert CountHolding([c, d]) == Point(c) + Point(d);
    assert CountHolding([b, c, d]) == Point(b) + Point(c) + Point(d);
  }

  /** The word shown under the meter. */
  datatype Label = Weak | Medium | Strong | VeryStrong {
    function Name(): string {
      match this
      case Weak => "Weak"
      case Medium => "Medium"
      case Strong => "Strong"
      case VeryStrong => "Very Strong"
    }

    /** Position of the label from weakest (0) to strongest (3). */
    function Rank(): nat {
      match this
      case Weak => 0
      case Medium => 1
      case Strong => 2
      case VeryStrong => 3
    }
  }

  /** `getStrengthLabel(strength)`. */
  function StrengthLabel(strength: int): (grade: Label)
    ensures grade == Weak <==> strength <= 25
    ensures grade == Medium <==> 25 < strength <= 50
    ensures grade == Strong <==> 50 < strength <= 75
    ensures grade == VeryStrong <==> 75 < strength
  {
    if strength <= 25 then Weak
    else if strength <= 50 then Medium
    else if strength <= 75 then Strong
    else VeryStrong
  }

  /** `updateStrengthIndicator`: the score accumulated test by test, the
      width of the bar in percent, and the caption under it. */
  method UpdateStrengthIndicator(text: Text) returns (strength: nat, caption: string)
    ensures strength == 25 * CountHolding(Conditions(text))
    ensures strength in {0, 25, 50, 75, 100}
    ensures caption == "Message Strength: " + StrengthLabel(strength).Name()
  {
    strength := 0;
    if |text| > 8 { strength := strength + 25; }
    if HasUpper(text) { strength := strength + 25; }
    if HasLower(text) { strength := strength + 25; }
    if HasDigit(text) { strength := strength + 25; }
    CountFour(|text| > 8, HasUpper(text), HasLower(text), HasDigit(text));
    caption := "Message Strength: " + StrengthLabel(strength).Name();
  }

  /** A higher score never gets a weaker label. */
  lemma LabelMonotone(a: int, b: int)
    requires a <= b
    ensures StrengthLabel(a).Rank() <= StrengthLabel(b).Rank()
  {
  }

  /** In terms of tests passed: at most one is Weak, two Medium, three
      Strong, all four Very Strong. */
  lemma LabelOfTestsPassed(text: Text)
    ensures CountHolding(Conditions(text)) <= 4
    ensures var n := CountHolding(Conditions(text));
      StrengthLabel(25 * n) == (if n <= 1 then Weak else if n == 2 then Medium else if n == 3 then Strong else VeryStrong)
  {
  }

  /** A text passes all four tests exactly when it is longer than 8 and
      holds an upper-case letter, a lower-case letter and a digit. */
  lemma {:induction false} VeryStrongExactly(text: Text)
    ensures StrengthLabel(25 * CountHolding(Conditions(text))) == VeryStrong <==>
      |text| > 8 && HasUpper(text) && HasLower(text) && HasDigit(text)
  {
    CountFour(|text| > 8, HasUpper(text), HasLower(text), HasDigit(text));
  }
}
