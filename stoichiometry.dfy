/** The first half of balance_equation: every compound is parsed, the
    distinct elements are collected, and the stoichiometric matrix is built
    with one row per element and one column per compound, reactants first.
    A reactant column holds the atom count, a product column its negation.

    The lemmas say what the matrix is for: a coefficient vector is in its
    null space exactly when every element is conserved, whatever order the
    element rows come in. */
module Stoichiometry {
  import opened Numbers
  import opened Formula

  /** A parsed compound: element symbol to atom count. */
  type Composition = map<string, nat>

  /** The compounds parsed in order, or the error of the first compound
      that does not parse (the source raises on the first one it meets). */
  function ParseAll(compounds: seq<string>): (r: Result<seq<Composition>>)
    ensures r.Ok? <==> forall i :: 0 <= i < |compounds| ==> Parse(compounds[i]).Ok?
    ensures r.Ok? ==> |r.value| == |compounds|
    ensures r.Ok? ==> forall i :: 0 <= i < |compounds| ==> r.value[i] == Parse(compounds[i]).value
    ensures r.Err? ==> exists i :: FirstFailure(compounds, i) && r.error == Parse(compounds[i]).error
  {
    if compounds == [] then
      Ok([])
    else
      match Parse(compounds[0])
      case Err(e) =>
        assert FirstFailure(compounds, 0);
        Err(e)
      case Ok(m) =>
        match ParseAll(compounds[1..])
        case Err(e) =>
          ghost var i :| FirstFailure(compounds[1..], i) && e == Parse(compounds[1..][i]).error;
          FailureAfterFirst(compounds, i);
          Err(e)
        case Ok(ms) =>
          ParsedAfterFirst(compounds, m, ms);
          Ok([m] + ms)
  }

  /** A first failure after a compound that parses is the first failure of
      the whole list. */
  lemma FailureAfterFirst(compounds: seq<string>, i: int)
    requires compounds != [] && Parse(compounds[0]).Ok? && FirstFailure(compounds[1..], i)
    ensures FirstFailure(compounds, i + 1) && compounds[i + 1] == compounds[1..][i]
  {
    forall j | 0 <= j < i + 1 ensures Parse(compounds[j]).Ok? {
      if j > 0 {
        assert compounds[j] == compounds[1..][j - 1];
      }
    }
  }

  lemma ParsedAfterFirst(compounds: seq<string>, m: Composition, ms: seq<Composition>)
    requires compounds != [] && Parse(compounds[0]) == Ok(m)
    requires |ms| == |compounds| - 1
    requires forall i :: 0 <= i < |ms| ==> Parse(compounds[1..][i]).Ok? && ms[i] == Parse(compounds[1..][i]).value
    ensures forall i :: 0 <= i < |compounds| ==> Parse(compounds[i]).Ok? && ([m] + ms)[i] == Parse(compounds[i]).value
  {
    forall i | 0 <= i < |compounds| ensures Parse(compounds[i]).Ok? && ([m] + ms)[i] == Parse(compounds[i]).value {
      if i > 0 {
        assert compounds[i] == compounds[1..][i - 1];
      }
    }
  }

  /** Compound i is the first one that does not parse. */
  predicate FirstFailure(compounds: seq<string>, i: int) {
    0 <= i < |compounds| && Parse(compounds[i]).Err? && forall j :: 0 <= j < i ==> Parse(compounds[j]).Ok?
  }

  /** Every element symbol that occurs in some compound. */
  ghost function ElementSet(comps: seq<Composition>): set<string> {
    set i, e | 0 <= i < |comps| && e in comps[i] :: e
  }

  predicate Distinct(s: seq<string>) {
    forall i, j :: 0 <= i < j < |s| ==> s[i] != s[j]
  }

  /** An order of the matrix rows: each element of the compounds exactly
      once. Python's set iteration fixes some such order; the model admits
      any. */
  ghost predicate IsElementOrder(elements: seq<string>, comps: seq<Composition>) {
    Distinct(elements) && forall e :: e in elements <==> e in ElementSet(comps)
  }

  /** The matrix row of element e: the count of e in each compound (0 when
      absent), negated in the product columns, i >= nR. */
  function Row(comps: seq<Composition>, nR: nat, e: string): seq<int> {
    seq(|comps|, i requires 0 <= i < |comps| => if i < nR then Get(comps[i], e) as int else -(Get(comps[i], e) as int))
  }

  function StoichMatrix(comps: seq<Composition>, nR: nat, elements: seq<string>): seq<seq<int>> {
    seq(|elements|, x requires 0 <= x < |elements| => Row(comps, nR, elements[x]))
  }

  /** What balance_equation computes before the null-space call. */
  datatype System = System(compositions: seq<Composition>, elements: seq<string>, matrix: seq<seq<int>>)

  /** Lines 28-45 of balance_equation: parse every compound (a parse error
      propagates), collect the element set, list it in some order, and
      build the rows. */
  method BuildMatrix(reactants: seq<string>, products: seq<string>) returns (r: Result<System>)
    ensures ParseAll(reactants + products).Err? ==> r == Err(ParseAll(reactants + products).error)
    ensures ParseAll(reactants + products).Ok? ==>
      && r.Ok?
      && r.value.compositions == ParseAll(reactants + products).value
      && IsElementOrder(r.value.elements, r.value.compositions)
      && r.value.matrix == StoichMatrix(r.value.compositions, |reactants|, r.value.elements)
  {
    var parsed := ParseEach(reactants + products);
    if parsed.Err? {
      return Err(parsed.error);
    }
    var comps, elementSet := parsed.value.0, parsed.value.1;
    var elementList := ListElements(elementSet);
    var matrix := BuildRows(comps, |reactants|, elementList);
    r := Ok(System(comps, elementList, matrix));
  }

  /** Lines 31-35: parse_compound on each compound in turn, the first
      error ending the call, and the union of their element symbols. */
  method ParseEach(all: seq<string>) returns (r: Result<(seq<Composition>, set<string>)>)
    ensures ParseAll(all).Err? ==> r == Err(ParseAll(all).error)
    ensures ParseAll(all).Ok? ==> r.Ok? && r.value.0 == ParseAll(all).value && r.value.1 == ElementSet(r.value.0)
  {
    var parsed: seq<Composition> := [];
    var elementSet: set<string> := {};
    for idx := 0 to |all|
      invariant |parsed| == idx
      invariant forall j :: 0 <= j < idx ==> Parse(all[j]).Ok? && parsed[j] == Parse(all[j]).value
      invariant elementSet == ElementSet(parsed)
    {
      var p := ParseCompound(all[idx]);
      if p.Err? {
        FirstFailureUnique(all, idx);
        return Err(p.error);
      }
      ElementSetSnoc(parsed, p.value);
      parsed := parsed + [p.value];
      elementSet := elementSet + p.value.Keys;
    }
    ParsedAll(all, parsed);
    r := Ok((parsed, elementSet));
  }

  /** Compositions that are, one by one, what each compound parses to are
      what ParseAll returns. */
  lemma ParsedAll(all: seq<string>, parsed: seq<Composition>)
    requires |parsed| == |all|
    requires forall j :: 0 <= j < |all| ==> Parse(all[j]).Ok? && parsed[j] == Parse(all[j]).value
    ensures ParseAll(all) == Ok(parsed)
  {
    var r := ParseAll(all);
    assert r.Ok?;
    assert r.value == parsed;
  }

  /** Lines 40-45: one row per element, in the listed order. */
  method BuildRows(comps: seq<Composition>, nR: nat, elements: seq<string>) returns (matrix: seq<seq<int>>)
    ensures matrix == StoichMatrix(comps, nR, elements)
  {
    matrix := [];
    for x := 0 to |elements|
      invariant |matrix| == x
      invariant forall y :: 0 <= y < x ==> matrix[y] == Row(comps, nR, elements[y])
    {
      var row := BuildRow(comps, nR, elements[x]);
      matrix := matrix + [row];
    }
  }

  /** Lines 42-44: the count of the element in each compound, negated in
      the product columns. */
  method BuildRow(comps: seq<Composition>, nR: nat, element: string) returns (row: seq<int>)
    ensures row == Row(comps, nR, element)
  {
    row := [];
    for i := 0 to |comps|
      invariant row == Row(comps, nR, element)[..i]
    {
      var count: int := Get(comps[i], element);
      row := row + [if i < nR then count else -count];
    }
  }

  /** The compound a scan in order stops at, after compounds that all
      parse, is the first failure. */
  lemma FirstFailureUnique(all: seq<string>, idx: nat)
    requires idx < |all| && Parse(all[idx]).Err?
    requires forall j :: 0 <= j < idx ==> Parse(all[j]).Ok?
    ensures ParseAll(all).Err? && ParseAll(all).error == Parse(all[idx]).error
  {
    assert FirstFailure(all, idx);
    var i :| FirstFailure(all, i) && ParseAll(all).error == Parse(all[i]).error;
    FirstFailureIsUnique(all, i, idx);
  }

  lemma FirstFailureIsUnique(all: seq<string>, i: int, k: int)
    requires FirstFailure(all, i) && FirstFailure(all, k)
    ensures i == k
  {
  }

  /** list(element_set): the elements of the set in an arbitrary order. */
  method ListElements(elementSet: set<string>) returns (elements: seq<string>)
    ensures Distinct(elements)
    ensures forall e :: e in elements <==> e in elementSet
  {
    elements := [];
    var rest := elementSet;
    while rest != {}
      invariant Distinct(elements)
      invariant forall e :: e in elements <==> e in elementSet && e !in rest
      invariant rest <= elementSet
      decreases |rest|
    {
      var e :| e in rest;
      elements := elements + [e];
      rest := rest - {e};
    }
  }

  lemma ElementSetSnoc(comps: seq<Composition>, m: Composition)
    ensures ElementSet(comps + [m]) == ElementSet(comps) + m.Keys
  {
    var all := comps + [m];
    forall e | e in ElementSet(all) ensures e in ElementSet(comps) + m.Keys {
      var i :| 0 <= i < |all| && e in all[i];
      if i < |comps| {
        assert e in comps[i];
      }
    }
    forall e | e in ElementSet(comps) + m.Keys ensures e in ElementSet(all) {
      if e in m.Keys {
        assert e in all[|comps|];
      } else {
        var i :| 0 <= i < |comps| && e in comps[i];
        assert e in all[i];
      }
    }
  }

  // ---------------------------------------------------------------------
  // Conservation

  /** Sum of row[i] * c[i] over the columns. */
  function Dot(row: seq<int>, c: seq<int>): int
    requires |row| == |c|
    decreases |row|
  {
    if row == [] then 0 else Dot(row[..|row| - 1], c[..|c| - 1]) + row[|row| - 1] * c[|c| - 1]
  }

  /** Atoms of e over compounds lo .. hi-1, each compound weighted by its
      coefficient. */
  function Weighted(comps: seq<Composition>, c: seq<int>, e: string, lo: nat, hi: nat): int
    requires lo <= hi <= |comps| == |c|
    decreases hi - lo
  {
    if hi == lo then 0 else Weighted(comps, c, e, lo, hi - 1) + c[hi - 1] * Get(comps[hi - 1], e)
  }

  /** Element e is conserved by coefficients c: as many atoms of e on the
      reactant side (columns before nR) as on the product side. */
  predicate Conserves(comps: seq<Composition>, nR: nat, c: seq<int>, e: string)
    requires nR <= |comps| == |c|
  {
    Weighted(comps, c, e, 0, nR) == Weighted(comps, c, e, nR, |comps|)
  }

  /** A row of the matrix times c is reactant atoms minus product atoms. */
  lemma {:induction false} RowDot(comps: seq<Composition>, nR: nat, e: string, c: seq<int>, k: nat)
    requires nR <= |comps| == |c| && k <= |comps|
    ensures Dot(Row(comps, nR, e)[..k], c[..k]) ==
      if k <= nR then Weighted(comps, c, e, 0, k)
      else Weighted(comps, c, e, 0, nR) - Weighted(comps, c, e, nR, k)
  {
    if k > 0 {
      var row := Row(comps, nR, e);
      PrefixOfPrefix(row, k - 1, k);
      PrefixOfPrefix(c, k - 1, k);
      RowDot(comps, nR, e, c, k - 1);
    }
  }

  lemma {:induction false} WeightedAbsent(comps: seq<Composition>, c: seq<int>, e: string, lo: nat, hi: nat)
    requires lo <= hi <= |comps| == |c|
    requires e !in ElementSet(comps)
    ensures Weighted(comps, c, e, lo, hi) == 0
    decreases hi - lo
  {
    if hi > lo {
      assert e !in comps[hi - 1];
      WeightedAbsent(comps, c, e, lo, hi - 1);
    }
  }

  /** The matrix sends c to zero exactly when c conserves every element,
      so the null space does not depend on the order of the rows. */
  lemma NullIffConserved(comps: seq<Composition>, nR: nat, elements: seq<string>, c: seq<int>)
    requires nR <= |comps| == |c|
    requires IsElementOrder(elements, comps)
    ensures (forall x :: 0 <= x < |elements| ==> Dot(StoichMatrix(comps, nR, elements)[x], c) == 0)
        <==> (forall e :: Conserves(comps, nR, c, e))
  {
    var m := StoichMatrix(comps, nR, elements);
    var n := |comps|;
    forall e ensures Dot(Row(comps, nR, e), c) == Weighted(comps, c, e, 0, nR) - Weighted(comps, c, e, nR, n) {
      RowDot(comps, nR, e, c, n);
      assert Row(comps, nR, e)[..n] == Row(comps, nR, e) && c[..n] == c;
      if nR == n {
        assert Weighted(comps, c, e, nR, n) == 0;
      }
    }
    if forall x :: 0 <= x < |elements| ==> Dot(m[x], c) == 0 {
      forall e ensures Conserves(comps, nR, c, e) {
        if e in ElementSet(comps) {
          var x :| 0 <= x < |elements| && elements[x] == e;
          assert m[x] == Row(comps, nR, e);
        } else {
          WeightedAbsent(comps, c, e, 0, nR);
          WeightedAbsent(comps, c, e, nR, n);
        }
      }
    }
    if forall e :: Conserves(comps, nR, c, e) {
      forall x | 0 <= x < |elements| ensures Dot(m[x], c) == 0 {
        assert m[x] == Row(comps, nR, elements[x]);
        assert Conserves(comps, nR, c, elements[x]);
      }
    }
  }
}
