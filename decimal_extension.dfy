/** `DecimalExtension.GetInstallments`: the instalment plans for a value,
    with amounts as exact rationals. */
module DecimalExtension {
  import opened Common

  const InvalidArguments: Exception :=
    ArgumentException("A quantidade máxima de parcelas e o valor mínimo da parcela devem ser maiores que zero.")

  /** `decimal.Round(x, 2, MidpointRounding.AwayFromZero)`. */
  function Round2(x: real): (r: real)
    ensures -0.005 < r - x <= 0.005 || -0.005 <= r - x < 0.005
    ensures (x >= 0.0 ==> r >= 0.0) && (x <= 0.0 ==> r <= 0.0)
    ensures (r * 100.0).Floor as real == r * 100.0
  {
    var cents := if x >= 0.0 then (x * 100.0 + 0.5).Floor else -((-x) * 100.0 + 0.5).Floor;
    assert (cents as real / 100.0) * 100.0 == cents as real;
    cents as real / 100.0
  }

  /** A midpoint rounds away from zero. */
  lemma Round2Midpoint(c: int)
    ensures Round2((c as real + 0.5) / 100.0) == if c >= 0 then (c + 1) as real / 100.0 else c as real / 100.0
  {
    var x := (c as real + 0.5) / 100.0;
    assert x * 100.0 == c as real + 0.5;
    if c >= 0 {
      var y := x * 100.0 + 0.5;
      assert y == (c + 1) as real;
      assert y.Floor == c + 1;
      assert Round2(x) == y.Floor as real / 100.0;
    } else {
      var y := (-x) * 100.0 + 0.5;
      assert y == (-c) as real;
      assert y.Floor == -c;
      assert Round2(x) == -(y.Floor as real / 100.0);
    }
  }

  /** Whether `n` instalments of `value` are each at least `minimum`. */
  predicate Affordable(value: real, minimum: real, n: int)
    requires n >= 1
  {
    value / n as real >= minimum
  }

  /** Fewer instalments are larger: a count that is affordable makes every
      smaller count affordable. */
  lemma AffordableDown(value: real, minimum: real, m: int, n: int)
    requires value > 0.0 && 1 <= m <= n && Affordable(value, minimum, n)
    ensures Affordable(value, minimum, m)
  {
    var a := value / m as real;
    var b := value / n as real;
    assert a * m as real == value && b * n as real == value;
    assert b * m as real <= b * n as real;
  }

  /** The counts `GetInstallments` offers when the value reaches the
      minimum. */
  ghost function Offered(value: real, maximum: int, minimum: real): set<int>
  {
    set n | 1 <= n <= maximum && Affordable(value, minimum, n)
  }

  /** The offered counts are exactly 1..k for some k between 1 and the
      maximum, with k + 1 no longer affordable. */
  lemma OfferedIsRange(value: real, maximum: int, minimum: real) returns (k: int)
    requires 0.0 < minimum <= value && maximum >= 1
    ensures 1 <= k <= maximum
    ensures forall n :: n in Offered(value, maximum, minimum) <==> 1 <= n <= k
    ensures k < maximum ==> !Affordable(value, minimum, k + 1)
  {
    assert value / 1 as real == value;
    k := 1;
    while k < maximum && Affordable(value, minimum, k + 1)
      invariant 1 <= k <= maximum && Affordable(value, minimum, k)
      decreases maximum - k
    {
      k := k + 1;
    }
    forall n | 1 <= n <= k
      ensures n in Offered(value, maximum, minimum)
    {
      AffordableDown(value, minimum, n, k);
    }
    forall n | n in Offered(value, maximum, minimum)
      ensures n <= k
    {
      if n > k {
        AffordableDown(value, minimum, k + 1, n);
      }
    }
  }

  /** `GetInstallments`: refuses a non-positive value, maximum or minimum;
      a value below the minimum is one unrounded instalment; otherwise each
      affordable count maps to its rounded instalment. */
  method GetInstallments(value: real, maximumNumberOfInstallments: int32, minimumValueOfInstallment: real)
    returns (r: Result<map<int, real>>)
    ensures r.Threw? <==> minimumValueOfInstallment <= 0.0 || value <= 0.0 || maximumNumberOfInstallments <= 0
    ensures r.Threw? ==> r.error == InvalidArguments
    ensures r.Ok? && value < minimumValueOfInstallment ==> r.value == map[1 := value]
    ensures r.Ok? && value >= minimumValueOfInstallment ==>
      r.value.Keys == Offered(value, maximumNumberOfInstallments as int, minimumValueOfInstallment)
      && forall n | n in r.value :: r.value[n] == Round2(value / n as real)
  {
    var retorno: map<int, real> := map[];
    if minimumValueOfInstallment <= 0.0 || value <= 0.0 || maximumNumberOfInstallments <= 0 {
      return Threw(InvalidArguments);
    }
    if value < minimumValueOfInstallment {
      retorno := retorno[1 := value];
      return Ok(retorno);
    }
    var parcela := 1;
    while parcela <= maximumNumberOfInstallments as int
      invariant 1 <= parcela <= maximumNumberOfInstallments as int + 1
      invariant forall n :: n in retorno <==> 1 <= n < parcela
      invariant forall n | 1 <= n < parcela :: Affordable(value, minimumValueOfInstallment, n)
      invariant forall n | n in retorno :: retorno[n] == Round2(value / n as real)
      decreases maximumNumberOfInstallments as int - parcela
    {
      var valorParcela := value / parcela as real;
      if valorParcela < minimumValueOfInstallment {
        forall n | parcela <= n <= maximumNumberOfInstallments as int
          ensures !Affordable(value, minimumValueOfInstallment, n)
        {
          if Affordable(value, minimumValueOfInstallment, n) {
            AffordableDown(value, minimumValueOfInstallment, parcela, n);
          }
        }
        break;
      }
      retorno := retorno[parcela := Round2(valorParcela)];
      parcela := parcela + 1;
    }
    return Ok(retorno);
  }
}
