/** `GoogleSheetHandler.format_bytes` (cloudflare_analytics.py:186-192): a byte count
    printed with two decimals in the first unit of the ladder B, KB, MB, GB, TB in
    which it is below 1024, or in PB once all five tests fail.

    The unit choice is stated on integers. Dividing by 1024.0 is exact in binary
    floating point and every unit boundary (at most 1024^5 = 2^50) is below 2^53,
    so the integer comparison `n < 1024^(k+1)` decides exactly as the float loop does. */
module ByteSize {
  import opened Outcomes
  import opened Text

  datatype Unit = B | KB | MB | GB | TB | PB

  /** The ladder in the order the loop walks it; PB is reached only after the loop. */
  const Ladder: seq<Unit> := [B, KB, MB, GB, TB, PB]

  function Label(u: Unit): string
  {
    match u
    case B => "B"
    case KB => "KB"
    case MB => "MB"
    case GB => "GB"
    case TB => "TB"
    case PB => "PB"
  }

  function Pow1024(k: nat): (p: nat)
    ensures p >= 1
  {
    if k == 0 then 1 else 1024 * Pow1024(k - 1)
  }

  lemma {:induction false} Pow1024Monotone(j: nat, k: nat)
    requires j <= k
    ensures Pow1024(j) <= Pow1024(k)
  {
    if j < k {
      Pow1024Monotone(j, k - 1);
    }
  }

  /** The loop from its `k`-th iteration on, the value having been divided by 1024
      `k` times: the test `value < 1024.0` is `n < 1024^(k+1)`. */
  function LadderFrom(n: int, k: nat): (u: nat)
    requires k <= 5
    requires k == 0 || Pow1024(k) <= n
    decreases 5 - k
    ensures k <= u <= 5
    ensures u == 0 || Pow1024(u) <= n
    ensures u == 5 || n < Pow1024(u + 1)
  {
    if k == 5 then 5
    else if n < 1024 * Pow1024(k) then k
    else LadderFrom(n, k + 1)
  }

  /** The index in `Ladder` of the unit `format_bytes` prints `n` in: B exactly when
      n < 1024, PB exactly when n >= 1024^5, and otherwise the band
      1024^k <= n < 1024^(k+1). */
  function UnitIndex(n: int): (k: nat)
    ensures k <= 5
    ensures k == 0 <==> n < 1024
    ensures k == 5 <==> n >= Pow1024(5)
    ensures 0 < k ==> Pow1024(k) <= n
    ensures k < 5 ==> n < Pow1024(k + 1)
  {
    var k := LadderFrom(n, 0);
    LadderEnds(k);
    k
  }

  lemma LadderEnds(k: nat)
    requires k <= 5
    ensures k < 5 ==> Pow1024(k + 1) <= Pow1024(5)
    ensures 0 < k ==> Pow1024(1) <= Pow1024(k)
  {
    if k < 5 {
      Pow1024Monotone(k + 1, 5);
    }
    if k > 0 {
      Pow1024Monotone(1, k);
    }
  }

  /** The band property determines the unit: it is the smallest `k` whose next power
      exceeds `n`, capped at PB. */
  lemma UnitIndexUnique(n: int, k: nat)
    requires k <= 5
    requires k == 0 || Pow1024(k) <= n
    requires k == 5 || n < Pow1024(k + 1)
    ensures UnitIndex(n) == k
  {
    var u := UnitIndex(n);
    if u < k {
      Pow1024Monotone(u + 1, k);
    } else if k < u {
      Pow1024Monotone(k + 1, u);
    }
  }

  /** `num / den` rounded to the nearest integer, ties to the even one: how `%.2f`
      rounds a value that is exactly representable. */
  function RoundHalfEven(num: nat, den: nat): (h: nat)
    requires den > 0
    ensures 2 * (num - h * den) <= den
    ensures 2 * (h * den - num) <= den
    ensures 2 * (num - h * den) == den ==> h % 2 == 0
    ensures 2 * (h * den - num) == den ==> h % 2 == 0
  {
    var q := num / den;
    var r := num % den;
    var h := if 2 * r > den || (2 * r == den && q % 2 == 1) then q + 1 else q;
    NearestStep(num, den, q, r, h);
    h
  }

  lemma NearestStep(num: int, den: int, q: int, r: int, h: int)
    requires den > 0 && num == q * den + r && 0 <= r < den
    requires h == (if 2 * r > den || (2 * r == den && q % 2 == 1) then q + 1 else q)
    ensures 2 * (num - h * den) <= den
    ensures 2 * (h * den - num) <= den
    ensures 2 * (num - h * den) == den ==> h % 2 == 0
    ensures 2 * (h * den - num) == den ==> h % 2 == 0
  {
    if h == q + 1 {
      assert h * den == q * den + den;
    } else {
      assert h * den == q * den;
    }
  }

  /** A non-negative amount given in hundredths, printed as `%.2f` prints it. */
  function TwoDecimals(hundredths: nat): string
  {
    NatStr(hundredths / 100) + "." + Padded(hundredths % 100, 2)
  }

  /** `format_bytes(n)`. A negative count never enters the loop's division (it is
      below 1024), and Python prints the int itself with a minus sign. */
  function FormatBytes(n: int): (r: string)
    ensures var u := " " + Label(Ladder[UnitIndex(n)]);
      |r| >= |u| + 4 && r[|r| - |u|..] == u && r[|r| - |u| - 3] == '.'
    ensures r[0] == '-' <==> n < 0
  {
    var k := UnitIndex(n);
    var amount :=
      if n < 0 then "-" + TwoDecimals(-n * 100)
      else TwoDecimals(RoundHalfEven(100 * n, Pow1024(k)));
    amount + " " + Label(Ladder[k])
  }

  /** Reads back a unit label. */
  function UnitOfLabel(t: string): (r: Option<nat>)
    ensures r.Some? ==> r.value <= 5 && Label(Ladder[r.value]) == t
  {
    if t == "B" then Some(0)
    else if t == "KB" then Some(1)
    else if t == "MB" then Some(2)
    else if t == "GB" then Some(3)
    else if t == "TB" then Some(4)
    else if t == "PB" then Some(5)
    else None
  }

  /** Reads back a `%.2f` amount, optionally signed, as a whole number of hundredths. */
  function ReadAmount(t: string): Option<int>
  {
    if |t| > 0 && t[0] == '-' then
      match ReadUnsigned(t[1..])
      case None => None
      case Some(h) => Some(-(h as int))
    else
      ReadUnsigned(t)
  }

  function ReadUnsigned(t: string): Option<nat>
  {
    if |t| >= 4 && t[|t| - 3] == '.' && AllDigits(t[..|t| - 3]) && AllDigits(t[|t| - 2..]) then
      Some(DigitsValue(t[..|t| - 3]) * 100 + DigitsValue(t[|t| - 2..]))
    else
      None
  }

  /** Reads a printed size back into its amount in hundredths and its unit index. */
  function ReadSize(s: string): Option<(int, nat)>
  {
    var cut :=
      if |s| >= 2 && s[|s| - 2] == ' ' then |s| - 2
      else if |s| >= 3 && s[|s| - 3] == ' ' then |s| - 3
      else |s|;
    if cut == |s| then None
    else
      match UnitOfLabel(s[cut + 1..])
      case None => None
      case Some(k) =>
        match ReadAmount(s[..cut])
        case None => None
        case Some(h) => Some((h, k))
  }

  lemma TwoDecimalsReadBack(h: nat)
    ensures |TwoDecimals(h)| >= 4 && TwoDecimals(h)[0] != '-'
    ensures ReadUnsigned(TwoDecimals(h)) == Some(h)
  {
    var t := TwoDecimals(h);
    var w, f := NatStr(h / 100), Padded(h % 100, 2);
    assert t[..|t| - 3] == w;
    assert t[|t| - 2..] == f;
  }

  /** The label after the last space names the unit; what precedes the space is
      the amount. */
  lemma ReadSizeOf(amount: string, k: nat)
    requires k <= 5 && ReadAmount(amount).Some?
    ensures ReadSize(amount + " " + Label(Ladder[k])) == Some((ReadAmount(amount).value, k))
  {
    var unitText := Label(Ladder[k]);
    var s := amount + " " + unitText;
    LabelRead(k);
    if k == 0 {
      assert s[|s| - 2] == ' ';
      ReadSizeAt(amount, unitText, k, |s| - 2);
    } else {
      assert |unitText| == 2 && unitText[0] != ' ';
      assert s[|s| - 2] == unitText[0];
      assert s[|s| - 3] == ' ';
      ReadSizeAt(amount, unitText, k, |s| - 3);
    }
  }

  lemma LabelRead(k: nat)
    requires k <= 5
    ensures UnitOfLabel(Label(Ladder[k])) == Some(k)
    ensures |Label(Ladder[k])| == if k == 0 then 1 else 2
    ensures k > 0 ==> Label(Ladder[k])[0] != ' '
  {
  }

  /** Once the cut falls on the space before the label, the two halves read back. */
  lemma ReadSizeAt(amount: string, unitText: string, k: nat, cut: nat)
    requires ReadAmount(amount).Some? && UnitOfLabel(unitText) == Some(k)
    requires cut == |amount| && 1 <= |unitText| <= 2
    requires |unitText| == 1 ==> cut == |amount + " " + unitText| - 2
    requires |unitText| == 2 ==> cut == |amount + " " + unitText| - 3 && unitText[0] != ' '
    ensures ReadSize(amount + " " + unitText) == Some((ReadAmount(amount).value, k))
  {
    var s := amount + " " + unitText;
    assert s[cut] == ' ';
    assert s[cut + 1..] == unitText;
    assert s[..cut] == amount;
  }

  /** What a reader of the cell gets back: the unit `UnitIndex` chose, and an amount
      within half a hundredth of n / 1024^k (exact for a count below 1024). */
  lemma FormatBytesReadBack(n: int)
    ensures ReadSize(FormatBytes(n)).Some?
    ensures ReadSize(FormatBytes(n)).value.1 == UnitIndex(n)
    ensures var h := ReadSize(FormatBytes(n)).value.0; var p := Pow1024(UnitIndex(n));
      2 * (100 * n - h * p) <= p && 2 * (h * p - 100 * n) <= p
    ensures n < 1024 ==> ReadSize(FormatBytes(n)).value.0 == 100 * n
  {
    var k := UnitIndex(n);
    var p := Pow1024(k);
    if n < 0 {
      var amount := "-" + TwoDecimals(-n * 100);
      TwoDecimalsReadBack(-n * 100);
      assert amount[1..] == TwoDecimals(-n * 100);
      assert ReadAmount(amount) == Some(100 * n);
      ReadSizeOf(amount, k);
      assert p == 1;
    } else {
      var h := RoundHalfEven(100 * n, p);
      var amount := TwoDecimals(h);
      TwoDecimalsReadBack(h);
      assert ReadAmount(amount) == Some(h);
      ReadSizeOf(amount, k);
      if n < 1024 {
        assert p == 1;
        assert h == 100 * n;
      }
    }
  }

  lemma TwoDecimalsOf(h: nat)
    requires h < 10000
    ensures TwoDecimals(h) == NatStr(h / 100) + "." + [DigitChar(h % 100 / 10), DigitChar(h % 10)]
  {
    var f := h % 100;
    LastDigit(h);
    PaddedTwoDigits(f);
    assert TwoDecimals(h) == NatStr(h / 100) + "." + Padded(f, 2);
  }

  lemma LastDigit(h: nat)
    ensures h % 100 % 10 == h % 10
  {
    var q, f := h / 100, h % 100;
    assert h == 10 * (10 * q) + f;
    assert h % 10 == f % 10;
  }

  /* The sizes printed for the documented sample inputs. */

  lemma FormatBytesZero()
    ensures FormatBytes(0) == "0.00 B"
  {
    assert UnitIndex(0) == 0 && Pow1024(0) == 1;
    var amount := TwoDecimals(RoundHalfEven(0, 1));
    assert RoundHalfEven(0, 1) == 0;
    TwoDecimalsOf(0);
    assert NatStr(0) == "0" && DigitChar(0) == '0';
    assert amount == "0.00";
    assert Label(Ladder[0]) == "B";
  }

  lemma FormatBytesOneKilo()
    ensures FormatBytes(1024) == "1.00 KB"
  {
    assert Pow1024(1) == 1024 && Pow1024(2) == 1048576;
    UnitIndexUnique(1024, 1);
    TwoDecimalsOf(100);
    assert RoundHalfEven(102400, 1024) == 100;
    assert NatStr(1) == "1";
  }

  lemma FormatBytesKiloAndHalf()
    ensures FormatBytes(1536) == "1.50 KB"
  {
    assert Pow1024(1) == 1024 && Pow1024(2) == 1048576;
    UnitIndexUnique(1536, 1);
    TwoDecimalsOf(150);
    assert RoundHalfEven(153600, 1024) == 150;
    assert NatStr(1) == "1";
  }

  lemma FormatBytesOneMega()
    ensures FormatBytes(1024 * 1024) == "1.00 MB"
  {
    assert Pow1024(2) == 1048576 && Pow1024(3) == 1073741824;
    UnitIndexUnique(1048576, 2);
    TwoDecimalsOf(100);
    assert RoundHalfEven(104857600, 1048576) == 100;
    assert NatStr(1) == "1";
  }
}
