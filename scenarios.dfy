/** Worked cases of the balancer: formulas the scanner accepts and
    rejects; H2 + O2 -> H2O, which balances, and H2 -> O2, which does not,
    each for every null space meeting the contract; and H2 + H2O -> O2,
    whose only basis vector has entries of both signs, so that abs() in the
    normaliser prints coefficients that do not balance. */
module Scenarios {
  import opened Numbers
  import opened Formula
  import opened Stoichiometry
  import opened Coefficients
  import opened Format
  import opened Balance

  /** One step of the scan on concrete text: the token that ends at the
      given boundaries, then the tokens of the rest. */
  lemma TokenizeFirst(s: string, j: nat, k: nat)
    requires s != [] && IsUpper(s[0]) && 1 <= j <= k <= |s|
    requires forall p :: 1 <= p < j ==> IsLower(s[p])
    requires j < |s| ==> !IsLower(s[j])
    requires forall p :: j <= p < k ==> IsDigit(s[p])
    requires k < |s| ==> !IsDigit(s[k])
    requires Tokenize(s[k..]).Some?
    ensures Tokenize(s) == Some([Token(s[..j], s[j..k])] + Tokenize(s[k..]).value)
  {
    TokenBounds(s, j, k);
  }

  /** "H2O" has two hydrogens and one oxygen. */
  lemma ParseWater()
    ensures Parse("H2O") == Ok(map["H" := 2, "O" := 1])
  {
    TokenizeWater();
    assert DecimalValue("2") == 2 by {
      assert "2"[..0] == "";
    }
  }

  lemma TokenizeWater()
    ensures Tokenize("H2O") == Some([Token("H", "2"), Token("O", "")])
  {
    var s := "H2O";
    assert s[2..] == "O" && s[..1] == "H" && s[1..2] == "2";
    assert "O"[1..] == "" && "O"[..1] == "O" && "O"[1..1] == "";
    TokenizeFirst("O", 1, 1);
    assert Tokenize("") == Some([]);
    assert [Token("O", "")] + [] == [Token("O", "")];
    TokenizeFirst(s, 1, 2);
    assert [Token("H", "2")] + [Token("O", "")] == [Token("H", "2"), Token("O", "")];
  }

  /** A symbol that comes back adds to its count: "HOH" is H:2, O:1. */
  lemma ParseRepeatedSymbol()
    ensures Parse("HOH") == Ok(map["H" := 2, "O" := 1])
  {
    TokenizeHOH();
    TallyHOH();
  }

  lemma TallyHOH()
    ensures Tally(map[], [Token("H", ""), Token("O", ""), Token("H", "")]) == map["H" := 2, "O" := 1]
  {
    var toks := [Token("H", ""), Token("O", ""), Token("H", "")];
    assert toks[1..] == [Token("O", ""), Token("H", "")] && toks[1..][1..] == [Token("H", "")];
    assert Tally(map["H" := 1, "O" := 1], [Token("H", "")]) == map["H" := 2, "O" := 1];
  }

  lemma TokenizeHOH()
    ensures Tokenize("HOH") == Some([Token("H", ""), Token("O", ""), Token("H", "")])
  {
    assert "HOH"[1..] == "OH" && "HOH"[..1] == "H" && "HOH"[1..1] == "";
    TokenizeOH();
    TokenizeFirst("HOH", 1, 1);
    assert [Token("H", "")] + [Token("O", ""), Token("H", "")] == [Token("H", ""), Token("O", ""), Token("H", "")];
  }

  lemma TokenizeOH()
    ensures Tokenize("OH") == Some([Token("O", ""), Token("H", "")])
  {
    assert "OH"[1..] == "H" && "OH"[..1] == "O" && "OH"[1..1] == "";
    assert "H"[1..] == "" && "H"[..1] == "H" && "H"[1..1] == "";
    TokenizeFirst("H", 1, 1);
    assert Tokenize("") == Some([]);
    assert [Token("H", "")] + [] == [Token("H", "")];
    TokenizeFirst("OH", 1, 1);
    assert Tokenize("OH") == Some([Token("O", "")] + [Token("H", "")]);
    assert [Token("O", "")] + [Token("H", "")] == [Token("O", ""), Token("H", "")];
  }

  /** A formula starting with a lowercase letter is rejected, naming the
      whole compound. */
  lemma ParseLowercaseStart()
    ensures Parse("h2o") == Err(InvalidFormat("h2o"))
  {
    assert !IsUpper("h2o"[0]);
  }

  /** An explicit count of 0 is kept. */
  lemma ParseZeroCount()
    ensures Parse("H0") == Ok(map["H" := 0])
  {
    var s := "H0";
    assert s[2..] == "" && s[..1] == "H" && s[1..2] == "0";
    TokenizeFirst(s, 1, 2);
    assert DecimalValue("0") == 0 by {
      assert "0"[..0] == "";
    }
  }

  /** The empty formula is accepted and names no element. */
  lemma ParseEmpty()
    ensures Parse("") == Ok(map[])
  {
  }

  /** A formula of one uppercase letter followed by the digit 2. */
  lemma ParseDiatomic(s: string, e: string)
    requires |e| == 1 && IsUpper(e[0]) && s == e + "2"
    ensures Parse(s) == Ok(map[e := 2])
  {
    assert s[..1] == e && s[1..2] == "2" && s[2..] == "";
    TokenizeFirst(s, 1, 2);
    var t := Token(e, "2");
    assert Tokenize(s[2..]) == Some([]);
    assert [t] + [] == [t];
    assert Tokenize(s) == Some([t]);
    assert [t][1..] == [];
    assert Amount(t) == 2 by {
      assert "2"[..0] == "";
    }
    assert Get(map[], e) == 0;
    assert Tally(map[], [t]) == Tally(map[e := 2], []);
  }

  /** Three compounds that parse, parsed together. */
  lemma ParsedThree(a: string, b: string, c: string, ma: Composition, mb: Composition, mc: Composition)
    requires Parse(a) == Ok(ma) && Parse(b) == Ok(mb) && Parse(c) == Ok(mc)
    ensures ParseAll([a, b, c]) == Ok([ma, mb, mc])
  {
    ParsedAll([a, b, c], [ma, mb, mc]);
  }

  /** Scaled values that are t times a list with gcd 1 normalise to that
      list. */
  lemma NormalizesTo(v: seq<Rat>, p: seq<nat>, t: nat)
    requires ValidRats(v) && NonZero(v) && |p| == |v| && GcdAll(p) == 1 && t >= 1
    requires Scaled(v) == ScaleAll(t, p)
    ensures Normalize(v) == p
  {
    NormalizeUnique(v, p, t, 1);
  }

  /** An element named by some compound gives the matrix a row. */
  lemma OrderNotEmpty(comps: seq<Composition>, elements: seq<string>, e: string, i: nat)
    requires IsElementOrder(elements, comps) && i < |comps| && e in comps[i]
    ensures elements != []
  {
    assert e in ElementSet(comps);
  }

  /** When some non-zero integer coefficients conserve every element, the
      basis the null space returns fits the compounds and is not empty. */
  lemma BasisOfSolvable(comps: seq<Composition>, nR: nat, elements: seq<string>, basis: seq<seq<Rat>>, c: seq<int>)
    requires nR <= |comps| == |c| && IsElementOrder(elements, comps) && elements != []
    requires NullspaceContract(StoichMatrix(comps, nR, elements), basis)
    requires NonZeroInts(c) && ConservesAll(comps, nR, c)
    ensures BasisFits(basis, |comps|) && basis != []
    ensures IsNullVector(StoichMatrix(comps, nR, elements), basis[0]) && NonZero(basis[0])
  {
    BasisFitsMatrix(comps, nR, elements, basis);
    IntegerSolutionIsNull(comps, nR, elements, c);
  }

  // ---------------------------------------------------------------------
  // H2 + O2 -> H2O

  const Water: seq<Composition> := [map["H" := 2], map["O" := 2], map["H" := 2, "O" := 1]]

  lemma WaterParses()
    ensures ParseAll(["H2", "O2"] + ["H2O"]) == Ok(Water)
  {
    var all := ["H2", "O2"] + ["H2O"];
    assert all == ["H2", "O2", "H2O"];
    ParseDiatomic("H2", "H");
    ParseDiatomic("O2", "O");
    ParseWater();
    ParsedThree("H2", "O2", "H2O", map["H" := 2], map["O" := 2], map["H" := 2, "O" := 1]);
  }

  /** Integer coefficients of H2, O2 and H2O conserve every element
      exactly when they are t, t/2 and t: two H2 per H2O, one O2 per two
      H2O. */
  lemma WaterConservation(c: seq<int>)
    requires |c| == 3
    ensures ConservesAll(Water, 2, c) <==> c[0] == c[2] && 2 * c[1] == c[2]
  {
    if c[0] == c[2] && 2 * c[1] == c[2] {
      forall e ensures Conserves(Water, 2, c, e) {
        assert Weighted(Water, c, e, 0, 1) == c[0] * Get(Water[0], e);
      }
    }
    if ConservesAll(Water, 2, c) {
      assert Conserves(Water, 2, c, "H") && Conserves(Water, 2, c, "O");
      assert Weighted(Water, c, "H", 0, 1) == c[0] * 2;
      assert Weighted(Water, c, "O", 0, 1) == 0;
    }
  }

  /** Every non-zero null vector of the water matrix, whatever the row
      order, normalises to 2, 1, 2. */
  lemma WaterSolution(elements: seq<string>, v: seq<Rat>)
    requires IsElementOrder(elements, Water)
    requires IsNullVector(StoichMatrix(Water, 2, elements), v) && NonZero(v)
    ensures Normalize(v) == [2, 1, 2]
  {
    OrderNotEmpty(Water, elements, "H", 0);
    var w := IntegerSolution(Water, 2, elements, v);
    WaterConservation(w);
    var t := WaterScaled(v, w);
    SmallGcds();
    NormalizesTo(v, [2, 1, 2], t);
  }

  lemma WaterScaled(v: seq<Rat>, w: seq<int>) returns (t: nat)
    requires ValidRats(v) && NonZero(v) && w == Scale(v, Multiple(v)) && |w| == 3
    requires w[0] == w[2] && 2 * w[1] == w[2]
    ensures t >= 1 && Scaled(v) == ScaleAll(t, [2, 1, 2])
  {
    t := if w[1] < 0 then -w[1] else w[1];
    assert Scaled(v) == [2 * t, t, 2 * t];
    var i :| 0 <= i < |v| && v[i].num != 0;
    ScaledNonZero(v, i);
  }

  /** H2 + O2 -> H2O prints "2H2 + 1O2 → 2H2O" for every basis meeting the
      null-space contract and every order of the element rows: the null
      space is one-dimensional, so every basis vector is a multiple of
      (2, 1, 2). */
  lemma BalanceWater(elements: seq<string>, basis: seq<seq<Rat>>)
    requires IsElementOrder(elements, Water)
    requires NullspaceContract(StoichMatrix(Water, 2, elements), basis)
    ensures BasisFits(basis, 3) && Finish(["H2", "O2"], ["H2O"], basis) == "2H2 + 1O2 \U{2192} 2H2O"
  {
    OrderNotEmpty(Water, elements, "H", 0);
    WaterConservation([2, 1, 2]);
    assert NonZeroInts([2, 1, 2]) by {
      assert [2, 1, 2][0] != 0;
    }
    BasisOfSolvable(Water, 2, elements, basis, [2, 1, 2]);
    WaterSolution(elements, basis[0]);
    PrintWater();
  }

  lemma PrintWater()
    ensures FormatEquation(["H2", "O2"], ["H2O"], [2, 1, 2]) == "2H2 + 1O2 \U{2192} 2H2O"
  {
    var c: seq<nat> := [2, 1, 2];
    assert NatToString(2) == "2" && NatToString(1) == "1";
    assert c[..2] == [2, 1] && c[2..] == [2];
    assert Term(2, "H2") == "2H2" && Term(1, "O2") == "1O2" && Term(2, "H2O") == "2H2O";
    assert Terms([2, 1], ["H2", "O2"]) == ["2H2", "1O2"];
    assert Terms([2], ["H2O"]) == ["2H2O"];
    assert Join(["2H2", "1O2"], " + ") == "2H2 + 1O2" by {
      assert ["2H2", "1O2"][1..] == ["1O2"];
    }
  }

  /** balance_equation(["H2", "O2"], ["H2O"]) returns "2H2 + 1O2 → 2H2O",
      whatever null space meeting the contract is used. */
  method WaterBalances(nullspace: seq<seq<int>> -> seq<seq<Rat>>) returns (r: Result<string>)
    requires forall m :: Rectangular(m) ==> NullspaceContract(m, nullspace(m))
    ensures r == Ok("2H2 + 1O2 \U{2192} 2H2O")
  {
    WaterParses();
    r := BalanceEquation(["H2", "O2"], ["H2O"], nullspace);
    ghost var elements :| Computes(["H2", "O2"], ["H2O"], nullspace, elements, r.value);
    MatrixIsRectangular(Water, 2, elements);
    BalanceWater(elements, nullspace(StoichMatrix(Water, 2, elements)));
  }

  // ---------------------------------------------------------------------
  // H2 -> O2

  const HydrogenOxygen: seq<Composition> := [map["H" := 2], map["O" := 2]]

  lemma HydrogenOxygenParses()
    ensures ParseAll(["H2"] + ["O2"]) == Ok(HydrogenOxygen)
  {
    var all := ["H2"] + ["O2"];
    assert all == ["H2", "O2"];
    ParseDiatomic("H2", "H");
    ParseDiatomic("O2", "O");
    ParsedAll(all, HydrogenOxygen);
  }

  /** H2 -> O2 shares no element between the sides, so only zero
      coefficients conserve both, and the error text is returned for every
      basis meeting the null-space contract. */
  lemma CannotBalanceHydrogenToOxygen(elements: seq<string>, basis: seq<seq<Rat>>)
    requires IsElementOrder(elements, HydrogenOxygen)
    requires NullspaceContract(StoichMatrix(HydrogenOxygen, 1, elements), basis)
    ensures BasisFits(basis, 2) && Finish(["H2"], ["O2"], basis) == CannotBalance
  {
    CannotBalanceIff(["H2"], ["O2"], HydrogenOxygen, elements, basis);
    HydrogenOxygenUnbalanceable();
  }

  lemma HydrogenOxygenUnbalanceable()
    ensures !Balanceable(HydrogenOxygen, 1)
  {
    forall c: seq<int> | |c| == 2 && ConservesAll(HydrogenOxygen, 1, c) ensures !NonZeroInts(c) {
      HydrogenOxygenConservation(c);
    }
  }

  /** Only zero coefficients of H2 and O2 conserve both elements. */
  lemma HydrogenOxygenConservation(c: seq<int>)
    requires |c| == 2
    ensures ConservesAll(HydrogenOxygen, 1, c) <==> c[0] == 0 && c[1] == 0
  {
    if c[0] == 0 && c[1] == 0 {
      forall e ensures Conserves(HydrogenOxygen, 1, c, e) {
        assert Weighted(HydrogenOxygen, c, e, 0, 1) == c[0] * Get(HydrogenOxygen[0], e);
      }
    }
    if ConservesAll(HydrogenOxygen, 1, c) {
      assert Conserves(HydrogenOxygen, 1, c, "H") && Conserves(HydrogenOxygen, 1, c, "O");
    }
  }

  /** balance_equation(["H2"], ["O2"]) returns the error text, whatever
      null space meeting the contract is used. */
  method HydrogenToOxygenFails(nullspace: seq<seq<int>> -> seq<seq<Rat>>) returns (r: Result<string>)
    requires forall m :: Rectangular(m) ==> NullspaceContract(m, nullspace(m))
    ensures r == Ok(CannotBalance)
  {
    HydrogenOxygenParses();
    r := BalanceEquation(["H2"], ["O2"], nullspace);
    ghost var elements :| Computes(["H2"], ["O2"], nullspace, elements, r.value);
    MatrixIsRectangular(HydrogenOxygen, 1, elements);
    CannotBalanceHydrogenToOxygen(elements, nullspace(StoichMatrix(HydrogenOxygen, 1, elements)));
  }

  /** A reactant starting with a lowercase letter ends balance_equation with
      the parse error naming it, whatever the products are. */
  method LowercaseReactantFails(products: seq<string>, nullspace: seq<seq<int>> -> seq<seq<Rat>>) returns (r: Result<string>)
    requires forall m :: Rectangular(m) ==> NullspaceContract(m, nullspace(m))
    ensures r == Err(InvalidFormat("h2o"))
  {
    ParseLowercaseStart();
    assert (["h2o"] + products)[0] == "h2o";
    r := BalanceEquation(["h2o"], products, nullspace);
  }

  // ---------------------------------------------------------------------
  // H2 + H2O -> O2: a null space of dimension 1 spanned by (-2, 2, 1)

  const HydrogenWater: seq<Composition> := [map["H" := 2], map["H" := 2, "O" := 1], map["O" := 2]]

  lemma HydrogenWaterParses()
    ensures ParseAll(["H2", "H2O"] + ["O2"]) == Ok(HydrogenWater)
  {
    var all := ["H2", "H2O"] + ["O2"];
    assert all == ["H2", "H2O", "O2"];
    ParseDiatomic("H2", "H");
    ParseDiatomic("O2", "O");
    ParseWater();
    ParsedThree("H2", "H2O", "O2", map["H" := 2], map["H" := 2, "O" := 1], map["O" := 2]);
  }

  /** Coefficients of H2, H2O and O2 conserve every element exactly when
      they are -2t, 2t and t. */
  lemma HydrogenWaterConservation(c: seq<int>)
    requires |c| == 3
    ensures ConservesAll(HydrogenWater, 2, c) <==> c[0] == -2 * c[2] && c[1] == 2 * c[2]
  {
    if c[0] == -2 * c[2] && c[1] == 2 * c[2] {
      forall e ensures Conserves(HydrogenWater, 2, c, e) {
        assert Weighted(HydrogenWater, c, e, 0, 1) == c[0] * Get(HydrogenWater[0], e);
      }
    }
    if ConservesAll(HydrogenWater, 2, c) {
      assert Conserves(HydrogenWater, 2, c, "H") && Conserves(HydrogenWater, 2, c, "O");
      assert Weighted(HydrogenWater, c, "H", 0, 1) == c[0] * 2;
      assert Weighted(HydrogenWater, c, "O", 0, 1) == 0;
    }
  }

  /** Every non-zero null vector of the matrix normalises to 2, 2, 1: abs
      turns the -2 of H2 into 2. */
  lemma HydrogenWaterSolution(elements: seq<string>, v: seq<Rat>)
    requires IsElementOrder(elements, HydrogenWater)
    requires IsNullVector(StoichMatrix(HydrogenWater, 2, elements), v) && NonZero(v)
    ensures Normalize(v) == [2, 2, 1]
  {
    OrderNotEmpty(HydrogenWater, elements, "H", 0);
    var w := IntegerSolution(HydrogenWater, 2, elements, v);
    HydrogenWaterConservation(w);
    var t := HydrogenWaterScaled(v, w);
    SmallGcds();
    NormalizesTo(v, [2, 2, 1], t);
  }

  lemma HydrogenWaterScaled(v: seq<Rat>, w: seq<int>) returns (t: nat)
    requires ValidRats(v) && NonZero(v) && w == Scale(v, Multiple(v)) && |w| == 3
    requires w[0] == -2 * w[2] && w[1] == 2 * w[2]
    ensures t >= 1 && Scaled(v) == ScaleAll(t, [2, 2, 1])
  {
    t := if w[2] < 0 then -w[2] else w[2];
    assert Scaled(v) == [2 * t, 2 * t, t];
    var i :| 0 <= i < |v| && v[i].num != 0;
    ScaledNonZero(v, i);
  }

  /** H2 + H2O -> O2: every basis vector has entries of both signs, the
      printed equation is "2H2 + 2H2O → 1O2", and its coefficients do not
      conserve hydrogen (8 atoms on the left, none on the right). */
  lemma MixedSignUnbalanced(elements: seq<string>, basis: seq<seq<Rat>>)
    requires IsElementOrder(elements, HydrogenWater)
    requires NullspaceContract(StoichMatrix(HydrogenWater, 2, elements), basis)
    ensures BasisFits(basis, 3) && basis != [] && !SameSign(basis[0])
    ensures Finish(["H2", "H2O"], ["O2"], basis) == "2H2 + 2H2O \U{2192} 1O2"
    ensures !Conserves(HydrogenWater, 2, Normalize(basis[0]), "H")
  {
    OrderNotEmpty(HydrogenWater, elements, "H", 0);
    HydrogenWaterConservation([-2, 2, 1]);
    assert NonZeroInts([-2, 2, 1]) by {
      assert [-2, 2, 1][0] != 0;
    }
    BasisOfSolvable(HydrogenWater, 2, elements, basis, [-2, 2, 1]);
    HydrogenWaterSolution(elements, basis[0]);
    HydrogenWaterConservation([2, 2, 1]);
    if SameSign(basis[0]) {
      PrintedCoefficientsConserve(HydrogenWater, 2, elements, basis);
    }
    PrintHydrogenWater();
  }

  lemma PrintHydrogenWater()
    ensures FormatEquation(["H2", "H2O"], ["O2"], [2, 2, 1]) == "2H2 + 2H2O \U{2192} 1O2"
  {
    var c: seq<nat> := [2, 2, 1];
    assert NatToString(2) == "2" && NatToString(1) == "1";
    assert c[..2] == [2, 2] && c[2..] == [1];
    assert Term(2, "H2") == "2H2" && Term(2, "H2O") == "2H2O" && Term(1, "O2") == "1O2";
    assert Terms([2, 2], ["H2", "H2O"]) == ["2H2", "2H2O"];
    assert Terms([1], ["O2"]) == ["1O2"];
    assert Join(["2H2", "2H2O"], " + ") == "2H2 + 2H2O" by {
      assert ["2H2", "2H2O"][1..] == ["2H2O"];
    }
  }

  /** The gcds the worked cases need. */
  lemma SmallGcds()
    ensures Gcd(1, 1) == 1 && Gcd(1, 2) == 1 && Gcd(2, 1) == 1 && Gcd(1, 0) == 1
    ensures Gcd(2, 2) == 2
    ensures GcdAll([2, 1, 2]) == 1 && GcdAll([2, 2, 1]) == 1
  {
    assert [2, 1, 2][..2] == [2, 1] && [2, 1][..1] == [2];
    assert [2, 2, 1][..2] == [2, 2] && [2, 2][..1] == [2];
    assert Gcd(1, 0) == 1;
    assert Gcd(2, 1) == Gcd(1, 0);
    assert Gcd(1, 2) == Gcd(2, 1);
    assert Gcd(1, 1) == Gcd(1, 0);
    assert Gcd(2, 0) == 2;
    assert Gcd(2, 2) == Gcd(2, 0);
  }
}
