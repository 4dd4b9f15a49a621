/** The formula scanner parse_compound: it turns a formula such as "H2O"
    into a map from element symbol to atom count.

    The scanner is modelled twice. Tokenize and Parse are the functional
    reading of the grammar (a formula is a run of tokens, each an element
    symbol and an optional count), and ParseCompound is the index-walking
    loop of the source, proved to compute Parse. The lemmas then say what
    Parse means: which strings it accepts, which keys it produces, and how
    the counts add up. */
module Formula {
  import opened Numbers

  datatype Option<T> = None | Some(value: T)

  /** The ValueError raised for a malformed formula; it names the whole
      compound string. */
  datatype ParseError = InvalidFormat(compound: string)

  datatype Result<T> = Ok(value: T) | Err(error: ParseError)

  /** ASCII readings of str.isupper and str.islower. */
  predicate IsUpper(c: char) {
    'A' <= c <= 'Z'
  }

  predicate IsLower(c: char) {
    'a' <= c <= 'z'
  }

  /** An element symbol: one uppercase letter and then lowercase letters. */
  predicate IsSymbol(s: string) {
    |s| > 0 && IsUpper(s[0]) && forall i :: 1 <= i < |s| ==> IsLower(s[i])
  }

  /** One token of a formula: the symbol and the digits written after it. */
  datatype Token = Token(symbol: string, digits: string)

  predicate ValidToken(t: Token) {
    IsSymbol(t.symbol) && AllDigits(t.digits)
  }

  predicate ValidTokens(toks: seq<Token>) {
    forall i :: 0 <= i < |toks| ==> ValidToken(toks[i])
  }

  /** What a token adds to its symbol's count: its digits read as a
      decimal number, or 1 when no digit follows the symbol. */
  function Amount(t: Token): nat
    requires AllDigits(t.digits)
  {
    if t.digits == [] then 1 else DecimalValue(t.digits)
  }

  /** The text of a token sequence. */
  function Spell(toks: seq<Token>): string {
    if toks == [] then [] else toks[0].symbol + toks[0].digits + Spell(toks[1..])
  }

  /** Length of the longest prefix of s made of lowercase letters. */
  function LowerRun(s: string): (n: nat)
    ensures n <= |s|
  {
    if s != [] && IsLower(s[0]) then 1 + LowerRun(s[1..]) else 0
  }

  /** Length of the longest prefix of s made of digits. */
  function DigitRun(s: string): (n: nat)
    ensures n <= |s|
  {
    if s != [] && IsDigit(s[0]) then 1 + DigitRun(s[1..]) else 0
  }

  /** LowerRun is a run of lowercase letters that cannot be extended, and
      the only one. */
  lemma {:induction false} LowerRunMaximal(s: string)
    ensures forall i :: 0 <= i < LowerRun(s) ==> IsLower(s[i])
    ensures LowerRun(s) < |s| ==> !IsLower(s[LowerRun(s)])
    decreases |s|
  {
    if s != [] && IsLower(s[0]) {
      LowerRunMaximal(s[1..]);
      assert forall i :: 1 <= i < |s| ==> s[i] == s[1..][i - 1];
    }
  }

  lemma {:induction false} LowerRunUnique(s: string, n: nat)
    requires n <= |s| && forall i :: 0 <= i < n ==> IsLower(s[i])
    requires n < |s| ==> !IsLower(s[n])
    ensures LowerRun(s) == n
    decreases n
  {
    if n > 0 {
      assert forall i :: 0 <= i < |s| - 1 ==> s[1..][i] == s[i + 1];
      LowerRunUnique(s[1..], n - 1);
    }
  }

  /** The same two facts for DigitRun. */
  lemma {:induction false} DigitRunMaximal(s: string)
    ensures forall i :: 0 <= i < DigitRun(s) ==> IsDigit(s[i])
    ensures DigitRun(s) < |s| ==> !IsDigit(s[DigitRun(s)])
    decreases |s|
  {
    if s != [] && IsDigit(s[0]) {
      DigitRunMaximal(s[1..]);
      assert forall i :: 1 <= i < |s| ==> s[i] == s[1..][i - 1];
    }
  }

  lemma {:induction false} DigitRunUnique(s: string, n: nat)
    requires n <= |s| && forall i :: 0 <= i < n ==> IsDigit(s[i])
    requires n < |s| ==> !IsDigit(s[n])
    ensures DigitRun(s) == n
    decreases n
  {
    if n > 0 {
      assert forall i :: 0 <= i < |s| - 1 ==> s[1..][i] == s[i + 1];
      DigitRunUnique(s[1..], n - 1);
    }
  }

  /** Where the symbol of the token starting at s[0] ends. */
  function SymbolEnd(s: string): (j: nat)
    requires s != []
    ensures 1 <= j <= |s|
  {
    1 + LowerRun(s[1..])
  }

  /** Where the digits of the token starting at s[0] end. */
  function CountEnd(s: string): (k: nat)
    requires s != []
    ensures SymbolEnd(s) <= k <= |s|
  {
    SymbolEnd(s) + DigitRun(s[SymbolEnd(s)..])
  }

  /** The token starting at s[0], once s[0] is known to be uppercase. */
  function FirstToken(s: string): Token
    requires s != []
  {
    Token(s[..SymbolEnd(s)], s[SymbolEnd(s)..CountEnd(s)])
  }

  /** The first token is a valid token, and it is the text before CountEnd. */
  lemma FirstTokenValid(s: string)
    requires s != [] && IsUpper(s[0])
    ensures ValidToken(FirstToken(s))
    ensures s == FirstToken(s).symbol + FirstToken(s).digits + s[CountEnd(s)..]
  {
    var j, k := SymbolEnd(s), CountEnd(s);
    var t := FirstToken(s);
    LowerRunMaximal(s[1..]);
    DigitRunMaximal(s[j..]);
    forall p | 1 <= p < j ensures IsLower(t.symbol[p]) {
      assert t.symbol[p] == s[1..][p - 1];
    }
    forall p | 0 <= p < k - j ensures IsDigit(t.digits[p]) {
      assert t.digits[p] == s[j..][p];
    }
    Thirds(s, j, k);
  }

  /** Any boundaries that delimit a maximal run of lowercase letters and
      then a maximal run of digits are SymbolEnd and CountEnd. */
  lemma TokenBounds(s: string, j: nat, k: nat)
    requires s != [] && 1 <= j <= k <= |s|
    requires forall p :: 1 <= p < j ==> IsLower(s[p])
    requires j < |s| ==> !IsLower(s[j])
    requires forall p :: j <= p < k ==> IsDigit(s[p])
    requires k < |s| ==> !IsDigit(s[k])
    ensures SymbolEnd(s) == j && CountEnd(s) == k
  {
    assert forall p :: 0 <= p < |s| - 1 ==> s[1..][p] == s[p + 1];
    LowerRunUnique(s[1..], j - 1);
    assert forall p :: 0 <= p < |s| - j ==> s[j..][p] == s[j + p];
    DigitRunUnique(s[j..], k - j);
  }

  /** The scan of parse_compound as a function: at each token start an
      uppercase letter is required; the symbol takes the lowercase letters
      after it and the count the digits after those. None is the error. */
  function Tokenize(s: string): (r: Option<seq<Token>>)
    ensures r.Some? ==> ValidTokens(r.value)
    decreases |s|
  {
    if s == [] then
      Some([])
    else if !IsUpper(s[0]) then
      None
    else
      match Tokenize(s[CountEnd(s)..])
      case None => None
      case Some(rest) =>
        FirstTokenValid(s);
        TailOfCons(FirstToken(s), rest);
        Some([FirstToken(s)] + rest)
  }

  function Get(m: map<string, nat>, e: string): nat {
    if e in m then m[e] else 0
  }

  /** Adds each token's amount to its symbol's entry, left to right, an
      absent symbol counting as 0 (app.py:22). */
  function Tally(acc: map<string, nat>, toks: seq<Token>): map<string, nat>
    requires ValidTokens(toks)
    decreases |toks|
  {
    if toks == [] then acc
    else Tally(acc[toks[0].symbol := Get(acc, toks[0].symbol) + Amount(toks[0])], toks[1..])
  }

  /** Parsing a suffix `rest` of the compound `whole` into an accumulator;
      an error names the whole compound. */
  function ParseRest(rest: string, acc: map<string, nat>, whole: string): Result<map<string, nat>> {
    match Tokenize(rest)
    case None => Err(InvalidFormat(whole))
    case Some(toks) => Ok(Tally(acc, toks))
  }

  /** parse_compound as a function. */
  function Parse(compound: string): Result<map<string, nat>> {
    ParseRest(compound, map[], compound)
  }

  /** parse_compound: walks the formula with an index, reads a symbol and
      its digits, and adds the count into `elements`; a token start that is
      not an uppercase letter is an error. */
  method ParseCompound(compound: string) returns (r: Result<map<string, nat>>)
    ensures r == Parse(compound)
  {
    var elements: map<string, nat> := map[];
    var i := 0;
    assert compound[i..] == compound;
    while i < |compound|
      invariant 0 <= i <= |compound|
      invariant ParseRest(compound[i..], elements, compound) == Parse(compound)
    {
      if IsUpper(compound[i]) {
        elements, i := ReadToken(compound, i, elements);
      } else {
        return Err(InvalidFormat(compound));
      }
    }
    assert compound[i..] == [];
    r := Ok(elements);
  }

  /** One pass of parse_compound's loop from a token start: the symbol,
      then the digits, then the amount added to the symbol's entry.
      Parsing from `start` with the old map is parsing from the end of the
      token with the new one. */
  method ReadToken(compound: string, start: nat, elements: map<string, nat>) returns (next: map<string, nat>, i: nat)
    requires start < |compound| && IsUpper(compound[start])
    ensures start < i <= |compound|
    ensures ParseRest(compound[start..], elements, compound) == ParseRest(compound[i..], next, compound)
  {
    var element, mid := ReadSymbol(compound, start);
    var num;
    num, i := ReadDigits(compound, mid);
    var n := if num != "" then DecimalValue(num) else 1;
    next := elements[element := Get(elements, element) + n];
    ScanStep(compound, start, mid, i, elements, next);
  }

  /** The symbol loop of parse_compound: the uppercase letter at `start`
      and every lowercase letter after it. */
  method ReadSymbol(compound: string, start: nat) returns (element: string, i: nat)
    requires start < |compound| && IsUpper(compound[start])
    ensures start < i <= |compound| && element == compound[start..i]
    ensures forall p :: start + 1 <= p < i ==> IsLower(compound[p])
    ensures i < |compound| ==> !IsLower(compound[i])
  {
    element := [compound[start]];
    i := start + 1;
    while i < |compound| && IsLower(compound[i])
      invariant start < i <= |compound|
      invariant element == compound[start..i]
      invariant forall p :: start + 1 <= p < i ==> IsLower(compound[p])
    {
      element := element + [compound[i]];
      i := i + 1;
    }
  }

  /** The count loop of parse_compound: the digits from `start` on. */
  method ReadDigits(compound: string, start: nat) returns (num: string, i: nat)
    requires start <= |compound|
    ensures start <= i <= |compound| && num == compound[start..i]
    ensures forall p :: start <= p < i ==> IsDigit(compound[p])
    ensures i < |compound| ==> !IsDigit(compound[i])
  {
    num := "";
    i := start;
    while i < |compound| && IsDigit(compound[i])
      invariant start <= i <= |compound|
      invariant num == compound[start..i]
      invariant forall p :: start <= p < i ==> IsDigit(compound[p])
    {
      num := num + [compound[i]];
      i := i + 1;
    }
  }

  /** Parsing reads the first token into the accumulator and goes on
      after it. */
  lemma ParseRestStep(u: string, acc: map<string, nat>, whole: string, t: Token, rest: string, acc': map<string, nat>)
    requires u != [] && IsUpper(u[0])
    requires t == FirstToken(u) && rest == u[CountEnd(u)..]
    requires AllDigits(t.digits) && acc' == acc[t.symbol := Get(acc, t.symbol) + Amount(t)]
    ensures ParseRest(u, acc, whole) == ParseRest(rest, acc', whole)
  {
    FirstTokenValid(u);
    match Tokenize(rest)
    case None =>
    case Some(toks) =>
      TailOfCons(t, toks);
  }

  /** s[start..mid] is an uppercase letter and the lowercase letters
      after it, s[mid..k] the digits after those, and neither run could
      go on: what one pass of parse_compound's loops reads. */
  predicate TokenSpan(s: string, start: nat, mid: nat, k: nat) {
    && start < mid <= k <= |s| && IsUpper(s[start])
    && (forall p :: start + 1 <= p < mid ==> IsLower(s[p]))
    && (mid < |s| ==> !IsLower(s[mid]))
    && (forall p :: mid <= p < k ==> IsDigit(s[p]))
    && (k < |s| ==> !IsDigit(s[k]))
  }

  /** The indices where the loops stop reading lowercase letters and
      digits delimit the first token of the rest of the string. */
  lemma ScanBounds(s: string, start: nat, mid: nat, k: nat)
    requires TokenSpan(s, start, mid, k)
    ensures FirstToken(s[start..]) == Token(s[start..mid], s[mid..k])
    ensures s[start..][CountEnd(s[start..])..] == s[k..]
  {
    var u := s[start..];
    ScanShift(s, start, mid, k);
    TokenBounds(u, mid - start, k - start);
    assert u[..mid - start] == s[start..mid] && u[mid - start..k - start] == s[mid..k];
  }

  /** The scan's bounds, counted from the token start. */
  lemma ScanShift(s: string, start: nat, mid: nat, k: nat)
    requires TokenSpan(s, start, mid, k)
    ensures var u, j, n := s[start..], mid - start, k - start;
      && (forall p :: 1 <= p < j ==> IsLower(u[p]))
      && (j < |u| ==> !IsLower(u[j]))
      && (forall p :: j <= p < n ==> IsDigit(u[p]))
      && (n < |u| ==> !IsDigit(u[n]))
  {
    assert forall p :: 0 <= p < |s| - start ==> s[start..][p] == s[start + p];
  }

  /** One iteration of the scan: the token the loops read from `start`
      (the symbol up to `mid`, then the digits up to `k`) is the first
      token Tokenize produces there, so parsing from `start` is parsing
      from k with that token's amount added. */
  lemma ScanStep(s: string, start: nat, mid: nat, k: nat, acc: map<string, nat>, next: map<string, nat>)
    requires TokenSpan(s, start, mid, k) && AllDigits(s[mid..k])
    requires next == acc[s[start..mid] := Get(acc, s[start..mid]) + Amount(Token(s[start..mid], s[mid..k]))]
    ensures ParseRest(s[start..], acc, s) == ParseRest(s[k..], next, s)
  {
    ScanBounds(s, start, mid, k);
    ParseRestStep(s[start..], acc, s, Token(s[start..mid], s[mid..k]), s[k..], next);
  }

  /** A successful scan cuts the formula into tokens that spell it. */
  lemma {:induction false} TokenizeSpellsInput(s: string)
    requires Tokenize(s).Some?
    ensures Spell(Tokenize(s).value) == s
    decreases |s|
  {
    if s != [] {
      var rest := s[CountEnd(s)..];
      TokenizeSpellsInput(rest);
      FirstTokenValid(s);
      var toks := Tokenize(s).value;
      assert toks == [FirstToken(s)] + Tokenize(rest).value;
      TailOfCons(FirstToken(s), Tokenize(rest).value);
    }
  }

  // ---------------------------------------------------------------------
  // What the scanner accepts

  /** The accepted language described character by character: only ASCII
      letters and digits, an uppercase letter first, and no lowercase
      letter straight after a digit (the empty string included). */
  predicate WellFormed(s: string) {
    && (forall i :: 0 <= i < |s| ==> IsUpper(s[i]) || IsLower(s[i]) || IsDigit(s[i]))
    && (|s| > 0 ==> IsUpper(s[0]))
    && (forall i :: 1 <= i < |s| && IsLower(s[i]) ==> !IsDigit(s[i - 1]))
  }

  /** parse_compound fails exactly on the strings outside the grammar. */
  lemma ParseSucceedsIffWellFormed(s: string)
    ensures Parse(s).Ok? <==> WellFormed(s)
  {
    if Parse(s).Ok? {
      TokenizeSpellsInput(s);
      SpellWellFormed(Tokenize(s).value);
    } else {
      if WellFormed(s) {
        WellFormedTokenizes(s);
      }
    }
  }

  lemma {:induction false} SpellWellFormed(toks: seq<Token>)
    requires ValidTokens(toks)
    ensures WellFormed(Spell(toks))
    ensures toks != [] ==> IsUpper(Spell(toks)[0])
  {
    if toks != [] {
      var t := toks[0];
      assert ValidToken(t);
      SpellWellFormed(toks[1..]);
      var rest := Spell(toks[1..]);
      var s := Spell(toks);
      var a := t.symbol + t.digits;
      assert s == a + rest;
      forall i | 0 <= i < |s| ensures IsUpper(s[i]) || IsLower(s[i]) || IsDigit(s[i]) {
        if i < |t.symbol| {
          assert s[i] == t.symbol[i];
        } else if i < |a| {
          assert s[i] == t.digits[i - |t.symbol|];
        } else {
          assert s[i] == rest[i - |a|];
        }
      }
      forall i | 1 <= i < |s| && IsLower(s[i]) ensures !IsDigit(s[i - 1]) {
        if i < |t.symbol| {
          assert s[i - 1] == t.symbol[i - 1];
        } else if i > |a| {
          assert s[i] == rest[i - |a|] && s[i - 1] == rest[i - 1 - |a|];
        }
      }
    }
  }

  lemma {:induction false} WellFormedTokenizes(s: string)
    requires WellFormed(s)
    ensures Tokenize(s).Some?
    decreases |s|
  {
    if s != [] {
      WellFormedAfterToken(s);
      WellFormedTokenizes(s[CountEnd(s)..]);
    }
  }

  /** What follows the first token of a well-formed string is well formed:
      the scan stopped there on a character that is neither a digit nor,
      after a symbol or a digit, a lowercase letter. */
  lemma WellFormedAfterToken(s: string)
    requires WellFormed(s) && s != []
    ensures WellFormed(s[CountEnd(s)..])
  {
    var j, k := SymbolEnd(s), CountEnd(s);
    var rest := s[k..];
    LowerRunMaximal(s[1..]);
    DigitRunMaximal(s[j..]);
    if k < |s| {
      assert !IsDigit(s[k]) by {
        assert s[j..][k - j] == s[k];
      }
      if k == j {
        assert !IsLower(s[k]) by {
          assert s[1..][j - 1] == s[k];
        }
      } else {
        assert IsDigit(s[k - 1]) by {
          assert s[j..][k - 1 - j] == s[k - 1];
        }
      }
      assert IsUpper(rest[0]);
    }
    assert forall p :: 0 <= p < |rest| ==> rest[p] == s[k + p];
  }

  // ---------------------------------------------------------------------
  // Tokens and their text

  /** The text of well-formed tokens scans back into the same tokens, so
      Tokenize and Spell are inverse to each other. */
  lemma {:induction false} TokenizeSpell(toks: seq<Token>)
    requires ValidTokens(toks)
    ensures Tokenize(Spell(toks)) == Some(toks)
  {
    if toks != [] {
      SpellWellFormed(toks[1..]);
      SpellFirstToken(toks[0], Spell(toks[1..]));
      assert Spell(toks) == toks[0].symbol + toks[0].digits + Spell(toks[1..]);
      TokenizeSpell(toks[1..]);
      HeadTail(toks);
    }
  }

  /** A valid token followed by text that starts a new token (or by
      nothing) is the first token of the whole, and the scan resumes where
      that text begins. */
  lemma SpellFirstToken(t: Token, rest: string)
    requires ValidToken(t) && (rest == [] || IsUpper(rest[0]))
    ensures var s := t.symbol + t.digits + rest;
      && s != [] && IsUpper(s[0]) && FirstToken(s) == t
      && s[CountEnd(s)..] == rest
  {
    var s := t.symbol + t.digits + rest;
    var m := |t.symbol|;
    var k := m + |t.digits|;
    assert forall p :: 0 <= p < m ==> s[p] == t.symbol[p];
    assert forall p :: m <= p < k ==> s[p] == t.digits[p - m];
    assert k < |s| ==> s[k] == rest[0];
    TokenBounds(s, m, k);
    assert s[..m] == t.symbol && s[m..k] == t.digits && s[k..] == rest;
  }

  // ---------------------------------------------------------------------
  // Keys and counts of the parsed map

  /** Sum of the amounts of the tokens written with symbol e. */
  function Total(toks: seq<Token>, e: string): nat
    requires ValidTokens(toks)
  {
    if toks == [] then 0
    else (if toks[0].symbol == e then Amount(toks[0]) else 0) + Total(toks[1..], e)
  }

  /** Tally adds up, per symbol, the amounts of its tokens. */
  lemma {:induction false} TallyCounts(acc: map<string, nat>, toks: seq<Token>, e: string)
    requires ValidTokens(toks)
    ensures Get(Tally(acc, toks), e) == Get(acc, e) + Total(toks, e)
    decreases |toks|
  {
    if toks != [] {
      var t := toks[0];
      TallyCounts(acc[t.symbol := Get(acc, t.symbol) + Amount(t)], toks[1..], e);
    }
  }

  /** The keys after tallying are the keys before and the symbols of the
      tokens. */
  lemma {:induction false} TallyKeys(acc: map<string, nat>, toks: seq<Token>, e: string)
    requires ValidTokens(toks)
    ensures e in Tally(acc, toks) <==> e in acc || exists i :: 0 <= i < |toks| && toks[i].symbol == e
    decreases |toks|
  {
    if toks != [] {
      var t := toks[0];
      TallyKeys(acc[t.symbol := Get(acc, t.symbol) + Amount(t)], toks[1..], e);
      if e in Tally(acc, toks) && e !in acc && e != t.symbol {
        var i :| 0 <= i < |toks[1..]| && toks[1..][i].symbol == e;
        assert toks[i + 1].symbol == e;
      }
      if exists i :: 0 <= i < |toks| && toks[i].symbol == e {
        var i :| 0 <= i < |toks| && toks[i].symbol == e;
        if i > 0 {
          assert toks[1..][i - 1].symbol == e;
        }
      }
    }
  }

  /** Every key of a parsed compound is an element symbol. */
  lemma ParseKeysAreSymbols(s: string)
    requires Parse(s).Ok?
    ensures forall e :: e in Parse(s).value ==> IsSymbol(e)
  {
    var toks := Tokenize(s).value;
    forall e | e in Parse(s).value ensures IsSymbol(e) {
      TallyKeys(map[], toks, e);
      var i :| 0 <= i < |toks| && toks[i].symbol == e;
      assert ValidToken(toks[i]);
    }
  }

  /** The count parsed for e is the sum, over the tokens naming e, of
      their written count (1 when none is written); e is a key exactly when
      some token names it. */
  lemma ParseCounts(s: string, e: string)
    requires Parse(s).Ok?
    ensures Get(Parse(s).value, e) == Total(Tokenize(s).value, e)
    ensures e in Parse(s).value <==> exists i :: 0 <= i < |Tokenize(s).value| && Tokenize(s).value[i].symbol == e
  {
    TallyCounts(map[], Tokenize(s).value, e);
    TallyKeys(map[], Tokenize(s).value, e);
  }
}
