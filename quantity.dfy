/**
 * The quantity rules of a product card (App.jsx:61-70 and 83) together with the
 * clamp `setQtd` applies (App.jsx:129). A card steps by one unit, or by the case
 * size in case mode; the case size here is a whole number of at least 1.
 */
module Quantity {
  import opened Wrappers
  import Numeric

  /** The clamp of `setQtd` (App.jsx:129): the larger of 0 and `q`. */
  function Clamp(q: int): (r: nat)
    ensures r >= q && (r == 0 || r == q)
  {
    if q < 0 then 0 else q
  }

  /** The step of a card (App.jsx:62): the case size in case mode, one unit otherwise. */
  function Step(caseMode: bool, caseSize: int): (s: int)
    requires caseSize >= 1
    ensures s >= 1
  {
    if caseMode then caseSize else 1
  }

  /** The sign of a multiple of a positive `k` is that of the multiplier, and it is at least `k` away from 0. */
  lemma {:induction false} MulSign(x: int, k: int)
    requires k >= 1
    ensures x >= 1 ==> x * k >= k
    ensures x <= -1 ==> x * k <= -k
    ensures x == 0 ==> x * k == 0
    decreases if x < 0 then -x else x
  {
    if x > 1 {
      MulSign(x - 1, k);
      assert x * k == (x - 1) * k + k;
    } else if x < -1 {
      MulSign(x + 1, k);
      assert x * k == (x + 1) * k - k;
    }
  }

  /** A multiple of `k` leaves no remainder. */
  lemma MulMod(m: int, k: int)
    requires k >= 1
    ensures (m * k) % k == 0
  {
    var q, rem := (m * k) / k, (m * k) % k;
    assert m * k == q * k + rem && 0 <= rem < k;
    assert (m - q) * k == rem;
    MulSign(m - q, k);
  }

  /** A number that leaves no remainder is its quotient times `k`. */
  lemma ModZero(r: int, k: int)
    requires k >= 1 && r % k == 0
    ensures r == (r / k) * k
  {
  }

  /** `Math.round(n / k) * k`: the nearest multiple of `k`, halves rounded up. */
  function RoundToMultiple(n: int, k: int): (r: int)
    requires k >= 1
    ensures r % k == 0
    ensures -k < 2 * (r - n) <= k
    ensures n >= 0 ==> r >= 0
  {
    var m := (2 * n + k) / (2 * k);
    assert 2 * n + k == m * (2 * k) + (2 * n + k) % (2 * k);
    assert 2 * k * m <= 2 * n + k < 2 * k * m + 2 * k;
    MulMod(m, k);
    MulSign(m, k);
    m * k
  }

  /** Exactly one multiple of `k` lies in the window a rounding to nearest allows. */
  lemma RoundToMultipleUnique(n: int, k: int, m: int)
    requires k >= 1 && m % k == 0 && -k < 2 * (m - n) <= k
    ensures m == RoundToMultiple(n, k)
  {
    var r := RoundToMultiple(n, k);
    ModZero(m, k);
    ModZero(r, k);
    var a, b := m / k, r / k;
    assert -k < m - r < k;
    assert (a - b) * k == m - r;
    MulSign(a - b, k);
  }

  /** `Math.ceil(q / k)`, on integers. */
  function CeilDiv(q: int, k: int): (c: int)
    requires k >= 1
    ensures (c - 1) * k < q <= c * k
  {
    var t := (-q) / k;
    assert -q == t * k + (-q) % k;
    -t
  }

  /**
   * The quantity after case mode is switched on: `(Math.ceil(q / k) || 1) * k`.
   * For a cart quantity (never negative) it is the least positive multiple of
   * `k` that is at least `q`.
   */
  function CaseModeOn(q: int, k: int): (r: int)
    requires k >= 1
    ensures r % k == 0
    ensures q >= 0 ==> r >= k && r >= q && (q > 0 ==> r - k < q) && (q == 0 ==> r == k)
  {
    var c := CeilDiv(q, k);
    var mult := if c == 0 then 1 else c;
    MulMod(mult, k);
    MulSign(c, k);
    MulSign(c - 1, k);
    assert mult * k == (mult - 1) * k + k;
    mult * k
  }

  /** The reading of the typed text (App.jsx:64): empty text counts as 0, anything else goes to `parseInt`. */
  function ParseEntry(val: string): Option<int>
  {
    if val == "" then Some(0) else Numeric.ParseIntPrefix(val)
  }

  /**
   * `handleChange`: a non-numeric or negative entry becomes 0, and in case mode
   * the entry is rounded to the nearest whole number of cases.
   */
  function Entered(val: string, caseMode: bool, k: int): (r: int)
    requires k >= 1
    ensures r >= 0
    ensures caseMode ==> r % k == 0
  {
    var n := match ParseEntry(val) case None => 0 case Some(v) => if v < 0 then 0 else v;
    if caseMode then RoundToMultiple(n, k) else n
  }

  /** `inc`: one step up, then the `setQtd` clamp. */
  function AfterInc(q: int, caseMode: bool, k: int): (r: nat)
    requires k >= 1
    ensures q >= 0 ==> r == q + Step(caseMode, k)
  {
    Clamp(q + Step(caseMode, k))
  }

  /** `dec`: one step down but never below 0. */
  function AfterDec(q: int, caseMode: bool, k: int): (r: nat)
    requires k >= 1
    ensures q >= Step(caseMode, k) ==> r == q - Step(caseMode, k)
    ensures q < Step(caseMode, k) ==> r == 0
  {
    Clamp(if q - Step(caseMode, k) < 0 then 0 else q - Step(caseMode, k))
  }

  /** The checkbox handler: switching on rounds up to whole cases, switching off keeps the quantity. */
  function AfterToggle(q: int, checked: bool, k: int): (r: int)
    requires k >= 1
    ensures !checked ==> r == q
    ensures checked && q >= 0 ==> r % k == 0 && r >= k && r >= q
    ensures checked && q >= 0 ==> r - k < q || r == k
  {
    if checked then Clamp(CaseModeOn(q, k)) else q
  }

  // ---------------------------------------------------------------------------
  // Laws

  /** `dec` undoes `inc`. */
  lemma DecUndoesInc(q: int, caseMode: bool, k: int)
    requires k >= 1 && q >= 0
    ensures AfterDec(AfterInc(q, caseMode, k), caseMode, k) == q
  {
  }

  /** `inc` undoes `dec` whenever `dec` did not stop at 0. */
  lemma IncUndoesDec(q: int, caseMode: bool, k: int)
    requires k >= 1 && q >= Step(caseMode, k)
    ensures AfterInc(AfterDec(q, caseMode, k), caseMode, k) == q
  {
  }

  /** In case mode a quantity that is a whole number of cases stays one under `inc` and `dec`. */
  lemma CaseModeKeepsCases(q: int, k: int)
    requires k >= 1 && q >= 0 && q % k == 0
    ensures AfterInc(q, true, k) % k == 0
    ensures AfterDec(q, true, k) % k == 0
  {
    ModZero(q, k);
    var a := q / k;
    assert q + k == (a + 1) * k;
    MulMod(a + 1, k);
    if q >= k {
      assert q - k == (a - 1) * k;
      MulMod(a - 1, k);
    }
  }

  /** Switching case mode on leaves a positive whole number of cases as it is. */
  lemma CaseModeOnFixesCases(q: int, k: int)
    requires k >= 1 && q > 0 && q % k == 0
    ensures CaseModeOn(q, k) == q
  {
    var r := CaseModeOn(q, k);
    RoundUpUnique(q, k, q);
  }

  /** The multiple `CaseModeOn` picks for a positive quantity is the only one in its window. */
  lemma RoundUpUnique(q: int, k: int, m: int)
    requires k >= 1 && q > 0 && m % k == 0 && q <= m < q + k
    ensures m == CaseModeOn(q, k)
  {
    var r := CaseModeOn(q, k);
    ModZero(m, k);
    ModZero(r, k);
    var a, b := m / k, r / k;
    assert -k < m - r < k;
    assert (a - b) * k == m - r;
    MulSign(a - b, k);
  }

  /** With a case of 6: entries 14, 15 and 16 become 12, 18 and 18, and switching on from 14 gives 18. */
  lemma CaseOfSix()
    ensures RoundToMultiple(14, 6) == 12
    ensures RoundToMultiple(15, 6) == 18
    ensures RoundToMultiple(16, 6) == 18
    ensures CaseModeOn(14, 6) == 18
    ensures CaseModeOn(0, 6) == 6
  {
    RoundToMultipleUnique(14, 6, 12);
    RoundToMultipleUnique(15, 6, 18);
    RoundToMultipleUnique(16, 6, 18);
    RoundUpUnique(14, 6, 18);
  }

  /** A negative or non-numeric entry becomes 0. */
  lemma EnteredInvalid(val: string, caseMode: bool, k: int)
    requires k >= 1
    requires ParseEntry(val).None? || ParseEntry(val).value < 0
    ensures Entered(val, caseMode, k) == 0
  {
    if caseMode {
      RoundToMultipleUnique(0, k, 0);
    }
  }

  /** Outside case mode, digits are taken as they are typed, whatever follows them. */
  lemma EnteredDigits(d: string, rest: string, k: int)
    requires k >= 1 && d != [] && Numeric.AllDigits(d)
    requires rest == [] || !Numeric.IsDigit(rest[0])
    ensures Entered(d + rest, false, k) == Numeric.DigitsValue(d)
  {
    Numeric.ParseIntOfDigitPrefix(d, rest);
  }

  /** In case mode, typed digits become the multiple of the case size nearest to their value. */
  lemma EnteredCaseDigits(d: string, rest: string, k: int)
    requires k >= 1 && d != [] && Numeric.AllDigits(d)
    requires rest == [] || !Numeric.IsDigit(rest[0])
    ensures Entered(d + rest, true, k) == RoundToMultiple(Numeric.DigitsValue(d), k)
  {
    Numeric.ParseIntOfDigitPrefix(d, rest);
  }

  /** With a case of 6, typing 14 gives 12 and typing 15 gives 18. */
  lemma EnteredCaseOfSix()
    ensures Entered("14", true, 6) == 12
    ensures Entered("15", true, 6) == 18
  {
    EnteredFourteen();
    EnteredFifteen();
  }

  lemma EnteredFourteen()
    ensures Entered("14", true, 6) == 12
  {
    Numeric.TwoDigits('1', '4');
    EnteredWhole("14", 6);
    RoundToMultipleUnique(14, 6, 12);
  }

  lemma EnteredFifteen()
    ensures Entered("15", true, 6) == 18
  {
    Numeric.TwoDigits('1', '5');
    EnteredWhole("15", 6);
    RoundToMultipleUnique(15, 6, 18);
  }

  /** In case mode, a text of digits alone rounds its value. */
  lemma EnteredWhole(d: string, k: int)
    requires k >= 1 && d != [] && Numeric.AllDigits(d)
    ensures Entered(d, true, k) == RoundToMultiple(Numeric.DigitsValue(d), k)
  {
    assert d + [] == d;
    EnteredCaseDigits(d, [], k);
  }

  /** A typed minus sign yields 0. */
  lemma EnteredNegative(d: string, rest: string, caseMode: bool, k: int)
    requires k >= 1 && d != [] && Numeric.AllDigits(d) && Numeric.DigitsValue(d) > 0
    requires rest == [] || !Numeric.IsDigit(rest[0])
    ensures Entered("-" + (d + rest), caseMode, k) == 0
  {
    Numeric.ParseIntOfNegative(d, rest);
    EnteredInvalid("-" + (d + rest), caseMode, k);
  }
}
