/** balance_equation as a whole: parse and build the matrix, ask the null
    space for a basis, and either report that the equation cannot be
    balanced or print the normalised first basis vector as coefficients.

    The null space is a parameter of the model (sympy is not modelled);
    every property below holds for any function meeting NullspaceContract.

    The lemmas say what the result means in chemical terms: the error is
    reported exactly when no non-zero integer coefficients conserve every
    element (or when no compound names an element at all), a printed
    equation reads back as the input compounds with coefficients whose gcd
    is 1, and those coefficients conserve every element whenever the
    chosen basis vector has entries of one sign. */
module Balance {
  import opened Numbers
  import opened Formula
  import opened Stoichiometry
  import opened Coefficients
  import opened Format

  /** The text returned when the null space is empty. */
  const CannotBalance: string := "Error: Cannot balance the equation."

  /** Every vector of the basis is a usable solution: rational, non-zero,
      one entry per compound. */
  predicate BasisFits(basis: seq<seq<Rat>>, n: nat) {
    forall k :: 0 <= k < |basis| ==> ValidRats(basis[k]) && NonZero(basis[k]) && |basis[k]| == n
  }

  /** Lines 49-62 of balance_equation, once the basis is known: the error
      text for an empty basis, otherwise the first vector normalised and
      formatted. */
  function Finish(reactants: seq<string>, products: seq<string>, basis: seq<seq<Rat>>): string
    requires BasisFits(basis, |reactants| + |products|)
  {
    if basis == [] then CannotBalance
    else FormatEquation(reactants, products, Normalize(basis[0]))
  }

  /** The result for one order of the matrix rows. */
  ghost predicate Computes(reactants: seq<string>, products: seq<string>, nullspace: seq<seq<int>> -> seq<seq<Rat>>,
                           elements: seq<string>, s: string)
    requires ParseAll(reactants + products).Ok?
  {
    var comps := ParseAll(reactants + products).value;
    var basis := nullspace(StoichMatrix(comps, |reactants|, elements));
    && IsElementOrder(elements, comps)
    && BasisFits(basis, |reactants| + |products|)
    && s == Finish(reactants, products, basis)
  }

  /** balance_equation(reactants, products). A formula that does not parse
      ends the call with its error; otherwise the result is Finish applied
      to what the null space returns for the matrix, for the row order
      list(element_set) happened to give. */
  method BalanceEquation(reactants: seq<string>, products: seq<string>, nullspace: seq<seq<int>> -> seq<seq<Rat>>)
    returns (r: Result<string>)
    requires forall m :: Rectangular(m) ==> NullspaceContract(m, nullspace(m))
    ensures ParseAll(reactants + products).Err? ==> r == Err(ParseAll(reactants + products).error)
    ensures ParseAll(reactants + products).Ok? ==>
      r.Ok? && exists elements :: Computes(reactants, products, nullspace, elements, r.value)
  {
    var system := BuildMatrix(reactants, products);
    if system.Err? {
      return Err(system.error);
    }
    var comps, elements, matrix := system.value.compositions, system.value.elements, system.value.matrix;
    MatrixIsRectangular(comps, |reactants|, elements);
    var basis := nullspace(matrix);
    BasisFitsMatrix(comps, |reactants|, elements, basis);
    r := Ok(Finish(reactants, products, basis));
    assert Computes(reactants, products, nullspace, elements, r.value);
  }

  lemma MatrixIsRectangular(comps: seq<Composition>, nR: nat, elements: seq<string>)
    ensures Rectangular(StoichMatrix(comps, nR, elements))
    ensures elements != [] ==> Cols(StoichMatrix(comps, nR, elements)) == |comps|
  {
  }

  /** The oracle's vectors have one entry per compound: a non-zero vector
      cannot be empty, so the matrix has a row, and a row has one entry per
      compound. */
  lemma BasisFitsMatrix(comps: seq<Composition>, nR: nat, elements: seq<string>, basis: seq<seq<Rat>>)
    requires NullspaceContract(StoichMatrix(comps, nR, elements), basis)
    ensures BasisFits(basis, |comps|)
  {
    var m := StoichMatrix(comps, nR, elements);
    forall k | 0 <= k < |basis| ensures ValidRats(basis[k]) && NonZero(basis[k]) && |basis[k]| == |comps| {
      assert IsNullVector(m, basis[k]);
      var i :| 0 <= i < |basis[k]| && basis[k][i].num != 0;
      assert m != [];
    }
  }

  // ---------------------------------------------------------------------
  // When the error is reported

  predicate NonZeroInts(c: seq<int>) {
    exists i :: 0 <= i < |c| && c[i] != 0
  }

  ghost predicate ConservesAll(comps: seq<Composition>, nR: nat, c: seq<int>)
    requires nR <= |comps| == |c|
  {
    forall e :: Conserves(comps, nR, c, e)
  }

  /** Some non-zero integer coefficients conserve every element. */
  ghost predicate Balanceable(comps: seq<Composition>, nR: nat)
    requires nR <= |comps|
  {
    exists c: seq<int> :: |c| == |comps| && NonZeroInts(c) && ConservesAll(comps, nR, c)
  }

  /** The error text is returned exactly when the compounds name no element
      at all (the matrix has no row, and sympy's null space of an empty
      matrix is empty) or no non-zero integer coefficients conserve every
      element. */
  lemma CannotBalanceIff(reactants: seq<string>, products: seq<string>, comps: seq<Composition>,
                         elements: seq<string>, basis: seq<seq<Rat>>)
    requires |comps| == |reactants| + |products|
    requires IsElementOrder(elements, comps)
    requires NullspaceContract(StoichMatrix(comps, |reactants|, elements), basis)
    ensures BasisFits(basis, |comps|)
    ensures Finish(reactants, products, basis) == CannotBalance
        <==> ElementSet(comps) == {} || !Balanceable(comps, |reactants|)
  {
    var nR := |reactants|;
    var m := StoichMatrix(comps, nR, elements);
    BasisFitsMatrix(comps, nR, elements, basis);
    if basis != [] {
      FormattedIsNotError(reactants, products, Normalize(basis[0]));
      var w := IntegerSolution(comps, nR, elements, basis[0]);
      assert elements != [] by {
        assert IsNullVector(m, basis[0]);
        var i :| 0 <= i < |basis[0]| && basis[0][i].num != 0;
      }
      assert elements[0] in ElementSet(comps);
    } else if ElementSet(comps) != {} && Balanceable(comps, nR) {
      var c: seq<int> :| |c| == |comps| && NonZeroInts(c) && ConservesAll(comps, nR, c);
      var e :| e in ElementSet(comps);
      assert e in elements;
      IntegerSolutionIsNull(comps, nR, elements, c);
      assert false;
    }
  }

  /** A basis vector scaled by the lcm of its denominators is a non-zero
      integer vector that conserves every element. */
  lemma IntegerSolution(comps: seq<Composition>, nR: nat, elements: seq<string>, v: seq<Rat>) returns (w: seq<int>)
    requires nR <= |comps| && IsElementOrder(elements, comps)
    requires IsNullVector(StoichMatrix(comps, nR, elements), v) && NonZero(v) && |v| == |comps|
    ensures w == Scale(v, Multiple(v))
    ensures |w| == |comps| && NonZeroInts(w) && ConservesAll(comps, nR, w)
  {
    var m := StoichMatrix(comps, nR, elements);
    var l := Multiple(v);
    w := Scale(v, l);
    forall i | 0 <= i < |v| ensures w[i] as real == l as real * Value(v[i]) {
      ScaleIsExact(v, l, i);
    }
    forall x | 0 <= x < |m| ensures Dot(m[x], w) == 0 {
      IntegerDotZero(m[x], v, w, l);
    }
    NullIffConserved(comps, nR, elements, w);
    var i :| 0 <= i < |v| && v[i].num != 0;
    ScaledNonZero(v, i);
    assert w[i] != 0;
  }

  /** Integer coefficients that conserve every element, read as rationals
      with denominator 1, are a non-zero null vector of the matrix. */
  lemma IntegerSolutionIsNull(comps: seq<Composition>, nR: nat, elements: seq<string>, c: seq<int>)
    requires nR <= |comps| == |c| && IsElementOrder(elements, comps) && elements != []
    requires NonZeroInts(c) && ConservesAll(comps, nR, c)
    ensures IsNullVector(StoichMatrix(comps, nR, elements), Integers(c)) && NonZero(Integers(c))
  {
    var m := StoichMatrix(comps, nR, elements);
    NullIffConserved(comps, nR, elements, c);
    forall x | 0 <= x < |m| ensures DotR(m[x], Integers(c)) == 0.0 {
      DotOfIntegers(m[x], c);
    }
    var i :| 0 <= i < |c| && c[i] != 0;
    assert Integers(c)[i].num != 0;
  }

  lemma {:induction false} DotOfIntegers(row: seq<int>, c: seq<int>)
    requires |row| == |c|
    ensures DotR(row, Integers(c)) == Dot(row, c) as real
    decreases |row|
  {
    if row != [] {
      var n := |row| - 1;
      assert Integers(c)[..n] == Integers(c[..n]);
      DotOfIntegers(row[..n], c[..n]);
    }
  }

  /** A formatted equation holds the arrow; the error text does not. */
  lemma FormattedIsNotError(reactants: seq<string>, products: seq<string>, coeffs: seq<nat>)
    requires |coeffs| == |reactants| + |products|
    ensures FormatEquation(reactants, products, coeffs) != CannotBalance
  {
    var lhs := Join(Terms(coeffs[..|reactants|], reactants), " + ");
    var s := FormatEquation(reactants, products, coeffs);
    assert s[|lhs| + 1] == Arrow;
    assert forall i :: 0 <= i < |CannotBalance| ==> CannotBalance[i] != Arrow;
  }

  // ---------------------------------------------------------------------
  // What a printed equation says

  /** A printed equation reads back as the input compounds, in order, with
      the normalised coefficients: non-negative integers whose gcd is 1. */
  lemma PrintedEquationReadsBack(reactants: seq<string>, products: seq<string>, basis: seq<seq<Rat>>)
    requires BasisFits(basis, |reactants| + |products|) && basis != []
    requires ParseAll(reactants + products).Ok?
    ensures var c := Normalize(basis[0]);
      && ReadEquation(Finish(reactants, products, basis)) == Some(Equation(reactants, products, c))
      && GcdAll(c) == 1
  {
    var all := reactants + products;
    forall i | 0 <= i < |reactants| ensures WellFormed(reactants[i]) {
      assert all[i] == reactants[i];
      ParseSucceedsIffWellFormed(all[i]);
    }
    forall i | 0 <= i < |products| ensures WellFormed(products[i]) {
      assert all[|reactants| + i] == products[i];
      ParseSucceedsIffWellFormed(all[|reactants| + i]);
    }
    ReadFormatted(reactants, products, Normalize(basis[0]));
  }

  /** When the first basis vector has entries of one sign, the printed
      coefficients conserve every element. */
  lemma PrintedCoefficientsConserve(comps: seq<Composition>, nR: nat, elements: seq<string>, basis: seq<seq<Rat>>)
    requires nR <= |comps| && IsElementOrder(elements, comps)
    requires NullspaceContract(StoichMatrix(comps, nR, elements), basis)
    requires basis != [] && SameSign(basis[0])
    ensures BasisFits(basis, |comps|)
    ensures ConservesAll(comps, nR, Normalize(basis[0]))
  {
    BasisFitsMatrix(comps, nR, elements, basis);
    NormalizeKeepsNull(StoichMatrix(comps, nR, elements), basis[0]);
    NullIffConserved(comps, nR, elements, Normalize(basis[0]));
  }
}
