/** The last three lines of balance_equation: each compound is written
    after its coefficient, the terms of each side are joined with " + ",
    and the two sides are put around an arrow.

    The partner of the formatter is a reader: ReadEquation splits the text
    at spaces, finds the arrow, and reads every term back as its leading
    decimal digits and the formula after them. For compounds that parse,
    reading the formatted equation gives back the compounds and the
    coefficients; and a term the reader accepts is exactly the text the
    formatter writes for what it read. */
module Format {
  import opened Numbers
  import opened Formula

  /** The arrow the source writes between the two sides (U+2192). */
  const Arrow: char := '\U{2192}'

  /** str.join: the parts with sep between neighbouring parts, "" when there
      are none. */
  function Join(parts: seq<string>, sep: string): string {
    if parts == [] then ""
    else if |parts| == 1 then parts[0]
    else parts[0] + sep + Join(parts[1..], sep)
  }

  /** One term of a side (app.py:60-61): the coefficient in decimal, then
      the compound. */
  function Term(c: nat, compound: string): string {
    NatToString(c) + compound
  }

  function Terms(coeffs: seq<nat>, compounds: seq<string>): (ts: seq<string>)
    requires |coeffs| == |compounds|
    ensures |ts| == |compounds|
    ensures forall i :: 0 <= i < |ts| ==> ts[i] == Term(coeffs[i], compounds[i])
  {
    seq(|compounds|, i requires 0 <= i < |compounds| => Term(coeffs[i], compounds[i]))
  }

  /** The printed equation (app.py:60-62): the two sides joined by the
      arrow with a space on each side; the reactant terms take the first
      coefficients, the product terms the rest. ReadFormatted says what
      can be read back from it. */
  function FormatEquation(reactants: seq<string>, products: seq<string>, coeffs: seq<nat>): string
    requires |coeffs| == |reactants| + |products|
  {
    var lhs := Join(Terms(coeffs[..|reactants|], reactants), " + ");
    var rhs := Join(Terms(coeffs[|reactants|..], products), " + ");
    lhs + " " + [Arrow] + " " + rhs
  }

  // ---------------------------------------------------------------------
  // Reading an equation back

  /** str.split(c): the pieces between the occurrences of c, [""] for "". */
  function Split(s: string, c: char): (ws: seq<string>)
    ensures |ws| > 0
  {
    if s == [] then [""]
    else
      var rest := Split(s[1..], c);
      if s[0] == c then [""] + rest else [[s[0]] + rest[0]] + rest[1..]
  }

  /** Index of the first occurrence of w in ws, |ws| when there is none. */
  function Find(ws: seq<string>, w: string): (k: nat)
    ensures k <= |ws|
    ensures forall j :: 0 <= j < k ==> ws[j] != w
    ensures k < |ws| ==> ws[k] == w
  {
    if ws == [] then 0 else if ws[0] == w then 0 else 1 + Find(ws[1..], w)
  }

  /** A term read back: its leading digits, written as str() writes a
      number, and the formula after them. */
  function ReadTerm(t: string): (r: Option<(nat, string)>)
    ensures r.Some? ==> Term(r.value.0, r.value.1) == t
  {
    var k := DigitRun(t);
    if k == 0 || !IsCanonicalDecimal(t[..k]) then None
    else
      CanonicalDecimalRoundTrip(t[..k]);
      assert t[..k] + t[k..] == t;
      Some((DecimalValue(t[..k]), t[k..]))
  }

  /** The words of one side, ' + '.join(terms).split(' '), read back: terms
      at the even places and "+" between them. */
  function ReadTerms(words: seq<string>): Option<(seq<nat>, seq<string>)>
    decreases |words|
  {
    if words == [] then None
    else
      match ReadTerm(words[0])
      case None => None
      case Some(first) =>
        if |words| == 1 then Some(([first.0], [first.1]))
        else if |words| >= 3 && words[1] == "+" then
          match ReadTerms(words[2..])
          case None => None
          case Some(rest) => Some(([first.0] + rest.0, [first.1] + rest.1))
        else None
  }

  /** A side with no term is the empty string, whose only word is "". */
  function ReadSide(words: seq<string>): Option<(seq<nat>, seq<string>)> {
    if words == [""] then Some(([], [])) else ReadTerms(words)
  }

  /** What an equation line says: the compounds of each side and all the
      coefficients, reactants first. */
  datatype Equation = Equation(reactants: seq<string>, products: seq<string>, coeffs: seq<nat>)

  function ReadEquation(s: string): Option<Equation> {
    var ws := Split(s, ' ');
    var k := Find(ws, [Arrow]);
    if k == |ws| then None
    else
      match (ReadSide(ws[..k]), ReadSide(ws[k + 1..]))
      case (Some(l), Some(r)) => Some(Equation(l.1, r.1, l.0 + r.0))
      case _ => None
  }

  // ---------------------------------------------------------------------
  // The round trip

  /** Reading a formatted equation gives back the compounds and their
      coefficients, as long as every compound is a formula parse_compound
      accepts. */
  lemma ReadFormatted(reactants: seq<string>, products: seq<string>, coeffs: seq<nat>)
    requires |coeffs| == |reactants| + |products|
    requires forall i :: 0 <= i < |reactants| ==> WellFormed(reactants[i])
    requires forall i :: 0 <= i < |products| ==> WellFormed(products[i])
    ensures ReadEquation(FormatEquation(reactants, products, coeffs)) == Some(Equation(reactants, products, coeffs))
  {
    var cl, cr := coeffs[..|reactants|], coeffs[|reactants|..];
    FormattedWords(reactants, products, coeffs);
    ReadWords(FormatEquation(reactants, products, coeffs),
      SideWords(Terms(cl, reactants)), SideWords(Terms(cr, products)), (cl, reactants), (cr, products));
    Halves(coeffs, |reactants|);
  }

  /** ReadEquation on a line whose words are a left side, the arrow and a
      right side. */
  lemma ReadWords(s: string, lw: seq<string>, rw: seq<string>, l: (seq<nat>, seq<string>), r: (seq<nat>, seq<string>))
    requires var ws := lw + [[Arrow]] + rw;
      && Split(s, ' ') == ws
      && Find(ws, [Arrow]) == |lw| && ws[..|lw|] == lw && ws[|lw| + 1..] == rw
      && ReadSide(lw) == Some(l) && ReadSide(rw) == Some(r)
    ensures ReadEquation(s) == Some(Equation(l.1, r.1, l.0 + r.0))
  {
  }

  /** What ReadEquation meets on a formatted line: the words, the place of
      the arrow, and what each side reads back as. */
  lemma FormattedWords(reactants: seq<string>, products: seq<string>, coeffs: seq<nat>)
    requires |coeffs| == |reactants| + |products|
    requires forall i :: 0 <= i < |reactants| ==> WellFormed(reactants[i])
    requires forall i :: 0 <= i < |products| ==> WellFormed(products[i])
    ensures var cl, cr := coeffs[..|reactants|], coeffs[|reactants|..];
      var lw, rw := SideWords(Terms(cl, reactants)), SideWords(Terms(cr, products));
      var ws := lw + [[Arrow]] + rw;
      && Split(FormatEquation(reactants, products, coeffs), ' ') == ws
      && Find(ws, [Arrow]) == |lw| && ws[..|lw|] == lw && ws[|lw| + 1..] == rw
      && ReadSide(lw) == Some((cl, reactants)) && ReadSide(rw) == Some((cr, products))
  {
    var cl, cr := coeffs[..|reactants|], coeffs[|reactants|..];
    EquationWords(reactants, products, coeffs);
    FindArrow(SideWords(Terms(cl, reactants)), SideWords(Terms(cr, products)));
    ReadSideWords(cl, reactants);
    ReadSideWords(cr, products);
  }

  /** The formatted line split at spaces: the words of the left side, the
      arrow, the words of the right side. */
  lemma EquationWords(reactants: seq<string>, products: seq<string>, coeffs: seq<nat>)
    requires |coeffs| == |reactants| + |products|
    requires forall i :: 0 <= i < |reactants| ==> WellFormed(reactants[i])
    requires forall i :: 0 <= i < |products| ==> WellFormed(products[i])
    ensures var lw := SideWords(Terms(coeffs[..|reactants|], reactants));
      var rw := SideWords(Terms(coeffs[|reactants|..], products));
      && Split(FormatEquation(reactants, products, coeffs), ' ') == lw + [[Arrow]] + rw
      && (forall j :: 0 <= j < |lw| ==> Plain(lw[j]))
      && (forall j :: 0 <= j < |rw| ==> Plain(rw[j]))
  {
    var cl, cr := coeffs[..|reactants|], coeffs[|reactants|..];
    var lt, rt := Terms(cl, reactants), Terms(cr, products);
    var lw, rw := SideWords(lt), SideWords(rt);
    TermsArePlain(cl, reactants);
    TermsArePlain(cr, products);
    SideWordsArePlain(lt);
    SideWordsArePlain(rt);
    LayoutAsWords(lt, rt);
    JoinedWordsSplit(lw, rw);
  }

  lemma JoinedWordsSplit(lw: seq<string>, rw: seq<string>)
    requires forall j :: 0 <= j < |lw| ==> Plain(lw[j])
    requires forall j :: 0 <= j < |rw| ==> Plain(rw[j])
    ensures Split(Join(lw + [[Arrow]] + rw, " "), ' ') == lw + [[Arrow]] + rw
  {
    var ws := lw + [[Arrow]] + rw;
    forall j | 0 <= j < |ws| ensures ' ' !in ws[j] {
      if j < |lw| {
        assert ws[j] == lw[j];
      } else if j > |lw| {
        assert ws[j] == rw[j - |lw| - 1];
      }
    }
    SplitJoin(ws, ' ');
  }

  /** The arrow word is found right after the left side's words. */
  lemma FindArrow(lw: seq<string>, rw: seq<string>)
    requires forall j :: 0 <= j < |lw| ==> Plain(lw[j])
    ensures var ws := lw + [[Arrow]] + rw;
      Find(ws, [Arrow]) == |lw| && ws[..|lw|] == lw && ws[|lw| + 1..] == rw
  {
    var ws := lw + [[Arrow]] + rw;
    forall j | 0 <= j < |lw| ensures ws[j] != [Arrow] {
      assert ws[j] == lw[j];
      assert Arrow !in lw[j];
    }
    FindFirst(ws, [Arrow], |lw|);
    assert ws[..|lw|] == lw;
    assert ws[|lw| + 1..] == rw;
  }

  lemma FindFirst(ws: seq<string>, w: string, k: nat)
    requires k < |ws| && ws[k] == w
    requires forall j :: 0 <= j < k ==> ws[j] != w
    ensures Find(ws, w) == k
  {
  }

  /** The words of ' + '.join(terms) split at spaces. */
  function SideWords(terms: seq<string>): (ws: seq<string>)
    ensures |ws| > 0
  {
    if terms == [] then [""]
    else if |terms| == 1 then terms
    else [terms[0], "+"] + SideWords(terms[1..])
  }

  /** A term or formula word: no space and not the arrow. */
  predicate Plain(w: string) {
    ' ' !in w && Arrow !in w
  }

  lemma TermsArePlain(coeffs: seq<nat>, compounds: seq<string>)
    requires |coeffs| == |compounds|
    requires forall i :: 0 <= i < |compounds| ==> WellFormed(compounds[i])
    ensures forall i :: 0 <= i < |compounds| ==> Plain(Terms(coeffs, compounds)[i])
  {
    forall i | 0 <= i < |compounds| ensures Plain(Terms(coeffs, compounds)[i]) {
      var d, f := NatToString(coeffs[i]), compounds[i];
      assert Terms(coeffs, compounds)[i] == d + f;
      forall j | 0 <= j < |d + f| ensures (d + f)[j] != ' ' && (d + f)[j] != Arrow {
        if j >= |d| {
          assert (d + f)[j] == f[j - |d|];
        }
      }
    }
  }

  lemma {:induction false} SideWordsArePlain(terms: seq<string>)
    requires forall i :: 0 <= i < |terms| ==> Plain(terms[i])
    ensures forall j :: 0 <= j < |SideWords(terms)| ==> Plain(SideWords(terms)[j])
    decreases |terms|
  {
    if |terms| > 1 {
      SideWordsArePlain(terms[1..]);
      var ws := SideWords(terms);
      forall j | 2 <= j < |ws| ensures Plain(ws[j]) {
        assert ws[j] == SideWords(terms[1..])[j - 2];
      }
    }
  }

  /** The formatted line is its words joined with single spaces. */
  lemma LayoutAsWords(lt: seq<string>, rt: seq<string>)
    ensures Join(lt, " + ") + " " + [Arrow] + " " + Join(rt, " + ")
         == Join(SideWords(lt) + [[Arrow]] + SideWords(rt), " ")
  {
    var lw, rw := SideWords(lt), SideWords(rt);
    SideAsWords(lt);
    SideAsWords(rt);
    assert ([[Arrow]] + rw)[1..] == rw;
    JoinAppend(lw, [[Arrow]] + rw, " ");
    assert lw + [[Arrow]] + rw == lw + ([[Arrow]] + rw);
  }

  lemma {:induction false} SideAsWords(terms: seq<string>)
    ensures Join(terms, " + ") == Join(SideWords(terms), " ")
    decreases |terms|
  {
    if |terms| > 1 {
      SideAsWords(terms[1..]);
      var rest := SideWords(terms[1..]);
      var ws := [terms[0], "+"] + rest;
      assert ws[1..] == ["+"] + rest;
      assert (["+"] + rest)[1..] == rest;
    }
  }

  lemma {:induction false} JoinAppend(a: seq<string>, b: seq<string>, sep: string)
    requires |a| > 0 && |b| > 0
    ensures Join(a + b, sep) == Join(a, sep) + sep + Join(b, sep)
    decreases |a|
  {
    if |a| > 1 {
      JoinAppend(a[1..], b, sep);
      assert (a + b)[1..] == a[1..] + b;
    } else {
      assert (a + b)[1..] == b;
    }
  }

  /** Splitting words joined by a character none of them holds gives the
      words back. */
  lemma {:induction false} SplitJoin(ws: seq<string>, c: char)
    requires |ws| > 0
    requires forall j :: 0 <= j < |ws| ==> c !in ws[j]
    ensures Split(Join(ws, [c]), c) == ws
    decreases |ws|
  {
    if |ws| == 1 {
      SplitFree(ws[0], [], c);
      assert ws[0] + [] == ws[0];
      assert Split([], c) == [""];
      assert ws == [ws[0]];
    } else {
      var tail := Join(ws[1..], [c]);
      SplitJoin(ws[1..], c);
      assert Join(ws, [c]) == ws[0] + ([c] + tail);
      SplitFree(ws[0], [c] + tail, c);
      assert ([c] + tail)[1..] == tail;
      assert Split([c] + tail, c) == [""] + ws[1..];
      assert ws[0] + "" == ws[0];
      assert ws == [ws[0]] + ws[1..];
    }
  }

  /** A prefix without c becomes the front of the first piece. */
  lemma {:induction false} SplitFree(w: string, t: string, c: char)
    requires c !in w
    ensures Split(w + t, c) == [w + Split(t, c)[0]] + Split(t, c)[1..]
    decreases |w|
  {
    var pieces := Split(t, c);
    if w == [] {
      assert w + t == t;
      assert w + pieces[0] == pieces[0];
      assert pieces == [pieces[0]] + pieces[1..];
    } else {
      var u := w + t;
      assert u[0] == w[0] && u[1..] == w[1..] + t;
      SplitFree(w[1..], t, c);
      var rest := Split(u[1..], c);
      assert rest[0] == w[1..] + pieces[0] && rest[1..] == pieces[1..];
      assert Split(u, c) == [[w[0]] + rest[0]] + rest[1..];
      assert [w[0]] + (w[1..] + pieces[0]) == w + pieces[0];
    }
  }

  lemma ReadSideWords(coeffs: seq<nat>, compounds: seq<string>)
    requires |coeffs| == |compounds|
    requires forall i :: 0 <= i < |compounds| ==> WellFormed(compounds[i])
    ensures ReadSide(SideWords(Terms(coeffs, compounds))) == Some((coeffs, compounds))
  {
    var ts := Terms(coeffs, compounds);
    if |compounds| > 0 {
      forall i | 0 <= i < |ts| ensures ReadTerm(ts[i]) == Some((coeffs[i], compounds[i])) {
        ReadTermOfTerm(coeffs[i], compounds[i]);
      }
      ReadTermsOfWords(ts, coeffs, compounds);
      assert SideWords(ts)[0] == ts[0] != "";
    }
  }

  /** Terms that each read back, joined into the words of a side, read
      back as all of them. */
  lemma {:induction false} ReadTermsOfWords(ts: seq<string>, coeffs: seq<nat>, compounds: seq<string>)
    requires 0 < |ts| == |coeffs| == |compounds|
    requires forall i :: 0 <= i < |ts| ==> ReadTerm(ts[i]) == Some((coeffs[i], compounds[i]))
    ensures ReadTerms(SideWords(ts)) == Some((coeffs, compounds))
    decreases |ts|
  {
    if |ts| > 1 {
      assert forall i :: 0 <= i < |ts| - 1 ==> ts[1..][i] == ts[i + 1];
      ReadTermsOfWords(ts[1..], coeffs[1..], compounds[1..]);
      var ws := [ts[0], "+"] + SideWords(ts[1..]);
      assert ws[2..] == SideWords(ts[1..]);
      HeadTail(coeffs);
      HeadTail(compounds);
    } else {
      assert coeffs == [coeffs[0]] && compounds == [compounds[0]];
    }
  }

  /** A formatted term reads back as its coefficient and formula. */
  lemma ReadTermOfTerm(c: nat, f: string)
    requires WellFormed(f)
    ensures ReadTerm(Term(c, f)) == Some((c, f))
  {
    var d := NatToString(c);
    var t := d + f;
    DigitRunOfNumber(d, f);
    var k := DigitRun(t);
    assert t[..k] == d;
    assert t[k..] == f;
  }

  /** The digit run of a number followed by a formula stops at the
      formula's first letter. */
  lemma {:induction false} DigitRunOfNumber(d: string, f: string)
    requires AllDigits(d) && (f == [] || !IsDigit(f[0]))
    ensures DigitRun(d + f) == |d|
    decreases |d|
  {
    if d == [] {
      assert d + f == f;
    } else {
      DigitRunOfNumber(d[1..], f);
      assert (d + f)[1..] == d[1..] + f;
    }
  }
}
