/** The unit that `fmtBytes` picks (frontend/src/mobile/MobileKit.tsx). */
module ByteUnits {
  /** A JavaScript number or its absence; magnitudes are exact. */
  datatype Input = Missing | NotFinite | Finite(n: real)

  /** What is printed, before digits are rounded: a dash, plain bytes, or `v` of unit `i`. */
  datatype Shown = Dash | Plain(n: real) | Scaled(v: real, i: nat)

  const UNITS: seq<string> := ["KB", "MB", "GB", "TB", "PB"]

  function Power(i: nat): (p: real)
    ensures p >= 1.0
  {
    if i == 0 then 1.0 else 1024.0 * Power(i - 1)
  }

  /** `n` bytes are exactly `v` units, in the largest unit that leaves at least one. */
  ghost predicate IsScaled(n: real, v: real, i: nat) {
    && i < |UNITS|
    && v * Power(i + 1) == n
    && v >= 1.0
    && (v < 1024.0 || i == |UNITS| - 1)
  }

  method FmtBytes(input: Input) returns (r: Shown)
    ensures r.Dash? <==> !input.Finite?
    ensures input.Finite? && input.n < 1024.0 ==> r == Plain(input.n)
    ensures input.Finite? && input.n >= 1024.0 ==> r.Scaled? && IsScaled(input.n, r.v, r.i)
  {
    if !input.Finite? { return Dash; }
    if input.n < 1024.0 { return Plain(input.n); }
    var v := input.n / 1024.0;
    var i := 0;
    assert Power(1) == 1024.0 * Power(0);
    while v >= 1024.0 && i < |UNITS| - 1
      invariant 0 <= i < |UNITS| && v >= 1.0 && v * Power(i + 1) == input.n
      decreases |UNITS| - i
    {
      assert Power(i + 2) == 1024.0 * Power(i + 1);
      assert v / 1024.0 * (1024.0 * Power(i + 1)) == v * Power(i + 1);
      v := v / 1024.0;
      i := i + 1;
    }
    return Scaled(v, i);
  }

  lemma {:induction false} PowerGrows(i: nat, j: nat)
    requires i <= j
    ensures Power(i) <= Power(j)
    decreases j
  {
    if i < j {
      PowerGrows(i, j - 1);
    }
  }

  lemma Times(a: real, b: real, p: real)
    requires a < b && p > 0.0
    ensures a * p < b * p
  {
  }

  lemma SmallerUnitIsLess(n: real, v: real, i: nat, m: real, w: real, j: nat)
    requires IsScaled(n, v, i) && IsScaled(m, w, j) && i < j
    ensures n < m
  {
    PowerGrows(i + 2, j + 1);
    BelowNextUnit(v, Power(i + 1), Power(i + 2));
    AtLeastOneUnit(w, Power(j + 1));
  }

  lemma BelowNextUnit(v: real, p: real, next: real)
    requires v < 1024.0 && p > 0.0 && next == 1024.0 * p
    ensures v * p < next
  {
    Times(v, 1024.0, p);
  }

  lemma AtLeastOneUnit(w: real, p: real)
    requires w >= 1.0 && p > 0.0
    ensures w * p >= p
  {
    if w > 1.0 { Times(1.0, w, p); }
  }

  lemma SameUnit(n: real, v: real, m: real, w: real, p: real)
    requires p > 0.0 && v * p == n && w * p == m
    ensures n < m <==> v < w
    ensures n == m <==> v == w
  {
    if v < w {
      Times(v, w, p);
    } else if w < v {
      Times(w, v, p);
    }
  }

  /** Unit first, then amount: what is shown is ordered exactly as the sizes are. */
  lemma ShownInOrder(n: real, v: real, i: nat, m: real, w: real, j: nat)
    requires IsScaled(n, v, i) && IsScaled(m, w, j)
    ensures n < m <==> i < j || (i == j && v < w)
    ensures n == m <==> i == j && v == w
  {
    if i < j {
      SmallerUnitIsLess(n, v, i, m, w, j);
    } else if j < i {
      SmallerUnitIsLess(m, w, j, n, v, i);
    } else {
      SameUnit(n, v, m, w, Power(i + 1));
    }
  }

  lemma Powers()
    ensures Power(1) == 1024.0 && Power(2) == 1048576.0 && Power(3) == 1073741824.0
    ensures Power(4) == 1099511627776.0 && Power(5) == 1125899906842624.0
    ensures Power(6) == 1152921504606846976.0
  {
    assert Power(0) == 1.0;
  }

  /** In which unit is a size at least one, seen from the size. */
  lemma UnitIff(n: real, v: real, i: nat)
    requires IsScaled(n, v, i)
    ensures n >= Power(i + 1)
    ensures i < 4 ==> n < Power(i + 2)
    ensures i == 4 ==> (v >= 1024.0 <==> n >= Power(6))
  {
    AtLeastOneUnit(v, Power(i + 1));
    assert Power(i + 2) == 1024.0 * Power(i + 1);
    if v < 1024.0 {
      BelowNextUnit(v, Power(i + 1), Power(i + 2));
    } else if v > 1024.0 {
      Times(1024.0, v, Power(i + 1));
    }
  }

  /** The unit by name, for every size that has one; 1024 PB and more is still PB. */
  lemma UnitShown(n: real, v: real, i: nat)
    requires IsScaled(n, v, i)
    ensures n >= 1024.0
    ensures UNITS[i] == if n < 1048576.0 then "KB"
                        else if n < 1073741824.0 then "MB"
                        else if n < 1099511627776.0 then "GB"
                        else if n < 1125899906842624.0 then "TB" else "PB"
    ensures v >= 1024.0 <==> n >= 1152921504606846976.0
  {
    Powers();
    UnitIff(n, v, i);
    PowerGrows(1, i + 1);
    PowerGrows(i + 2, 6);
    match i
    case 0 =>
    case 1 =>
    case 2 =>
    case 3 =>
    case 4 =>
  }
}
