/**
 The verifier-string evaluator (src/LibBoolEE.cpp): a formula is evaluated by splitting its text at
 the operators outside parentheses, first at "|", then at "&".
 */
module BoolEE {
  import opened Wrappers

  datatype Error =
    | UnknownOperator(c: char)
    | ParenthesisParity
    | EmptySubExpression
    | NotAFormula
    | VariableNotFound

  datatype Result<T> = Ok(value: T) | Err(error: Error)

  type Valuation = map<string, bool>

  // ---------------------------------------------------------------------------------------
  // Characters.
  // ---------------------------------------------------------------------------------------

  /** ASCII letters and digits, the underscore, the hash sign and the dot. */
  predicate BelongsToName(c: char)
    ensures BelongsToName(c) <==>
            var code := c as int;
            48 <= code <= 57 || 65 <= code <= 90 || 97 <= code <= 122 || code == 95 || code == 35 || code == 46
  {
    '0' <= c <= '9' || 'A' <= c <= 'Z' || 'a' <= c <= 'z' || c == '_' || c == '#' || c == '.'
  }

  function Dense(s: string): (r: string)
    ensures |r| <= |s|
  {
    if s == [] then [] else (if IsSpace(s[0]) then [] else [s[0]]) + Dense(s[1..])
  }

  /** Only spaces are left out, and the order stays. */
  lemma {:induction false} DenseParts(s: string, t: string)
    ensures Dense(s + t) == Dense(s) + Dense(t)
  {
    hide IsSpace;
    if s == [] {
      assert s + t == t;
    } else {
      DenseParts(s[1..], t);
      assert (s + t)[1..] == s[1..] + t && (s + t)[0] == s[0];
      Regrouped(if IsSpace(s[0]) then [] else [s[0]], Dense(s[1..]), Dense(t));
    }
  }

  lemma Regrouped(a: string, b: string, c: string)
    ensures a + (b + c) == (a + b) + c
  {
  }

  lemma DenseOne(c: char)
    ensures Dense([c]) == if IsSpace(c) then [] else [c]
  {
    assert [c][1..] == [];
  }

  method RemoveWhitespaces(s: string) returns (r: string)
    ensures r == Dense(s)
  {
    r := [];
    var i := 0;
    while i < |s|
      invariant 0 <= i <= |s| && Dense(s) == r + Dense(s[i..])
    {
      assert s[i..][1..] == s[i + 1..];
      if !IsSpace(s[i]) {
        r := r + [s[i]];
      }
      i := i + 1;
    }
  }

  // ---------------------------------------------------------------------------------------
  // Splitting at one operator.
  // ---------------------------------------------------------------------------------------

  /** Where the current piece starts (-1 before the first), the nesting depth, the pieces so far. */
  datatype State = State(start: int, depth: int, parts: seq<string>)

  ghost predicate StateOk(f: string, i: nat, st: State) {
    i <= |f| && -1 <= st.start <= i && (st.parts != [] ==> st.start >= 1)
    && forall k :: 0 <= k < |st.parts| ==> |st.parts[k]| < |f|
  }

  function Step(f: string, op: char, i: nat, st: State): (r: Result<State>)
    requires i < |f| && StateOk(f, i, st)
    ensures r.Ok? ==> StateOk(f, i + 1, r.value)
  {
    var c := f[i];
    if c == ')' then Ok(st.(depth := st.depth - 1))
    else if c == '(' then
      Ok(st.(depth := st.depth + 1, start := if st.start == -1 then i else st.start))
    else if st.depth != 0 then Ok(st)
    else if st.start == -1 then
      Ok(if BelongsToName(c) || c == '!' then st.(start := i) else st)
    else if BelongsToName(c) || c == '!' then Ok(st)
    else if op == c then Ok(st.(parts := st.parts + [f[st.start..i]], start := i + 1))
    else if c != '&' && c != '|' then Err(UnknownOperator(c))
    else Ok(st)
  }

  function Run(f: string, op: char, i: nat, j: nat, st: State): (r: Result<State>)
    requires i <= j <= |f| && StateOk(f, i, st)
    ensures r.Ok? ==> StateOk(f, j, r.value)
    decreases j - i
  {
    if i == j then Ok(st)
    else match Step(f, op, i, st)
      case Err(e) => Err(e)
      case Ok(t) => Run(f, op, i + 1, j, t)
  }

  /** What the end of the text makes of the scan. */
  function Pieces(f: string, st: State): (r: Result<seq<string>>)
    requires StateOk(f, |f|, st)
    ensures r.Ok? ==> forall k :: 0 <= k < |r.value| ==>
      |r.value[k]| <= |f| && (|r.value| >= 2 ==> |r.value[k]| < |f|)
  {
    if st.depth != 0 then Err(ParenthesisParity)
    else Ok(if st.start == -1 then st.parts else st.parts + [f[st.start..]])
  }

  /** The pieces of `f` between the occurrences of `op` outside parentheses. */
  function Split(f: string, op: char): (r: Result<seq<string>>)
    ensures r.Ok? ==> forall k :: 0 <= k < |r.value| ==>
      |r.value[k]| <= |f| && (|r.value| >= 2 ==> |r.value[k]| < |f|)
  {
    match Run(f, op, 0, |f|, State(-1, 0, []))
    case Err(e) => Err(e)
    case Ok(st) => Pieces(f, st)
  }

  method SingleParse(f: string, op: char) returns (r: Result<seq<string>>)
    ensures r == Split(f, op)
  {
    var start, depth, parts := -1, 0, [];
    var i := 0;
    while i < |f|
      invariant 0 <= i <= |f| && StateOk(f, i, State(start, depth, parts))
      invariant Run(f, op, 0, |f|, State(-1, 0, [])) == Run(f, op, i, |f|, State(start, depth, parts))
    {
      if f[i] == ')' {
        depth := depth - 1;
      } else if f[i] == '(' {
        depth := depth + 1;
        if start == -1 {
          start := i;
        }
      } else if depth == 0 {
        if start == -1 {
          if BelongsToName(f[i]) || f[i] == '!' {
            start := i;
          }
        } else if !(BelongsToName(f[i]) || f[i] == '!') {
          if op == f[i] {
            parts := parts + [f[start..i]];
            start := i + 1;
          } else if f[i] != '&' && f[i] != '|' {
            return Err(UnknownOperator(f[i]));
          }
        }
      }
      i := i + 1;
    }
    if start != -1 {
      parts := parts + [f[start..]];
    }
    if depth != 0 {
      return Err(ParenthesisParity);
    }
    return Ok(parts);
  }

  // ---------------------------------------------------------------------------------------
  // Evaluation. Every call is on a shorter text, or on the same text without its spaces.
  // ---------------------------------------------------------------------------------------

  function Resolve(s: string, vals: Valuation): Result<bool>
    decreases |s|, 2, 0
  {
    ResolveRec(Dense(s), vals)
  }

  function ResolveRec(s: string, vals: Valuation): Result<bool>
    decreases |s|, 1, 0
  {
    if s == [] then Err(EmptySubExpression)
    else match Split(s, '|')
      case Err(e) => Err(e)
      case Ok(ors) =>
        if |ors| == 0 then Err(NotAFormula)
        else if |ors| > 1 then ResolveAll(ors, vals, false, |s|)
        else match Split(s, '&')
          case Err(e) => Err(e)
          case Ok(ands) =>
            if |ands| == 0 then Err(NotAFormula)
            else if |ands| > 1 then ResolveAll(ands, vals, true, |s|)
            else ResolveOne(s, vals)
  }

  /** A text without an operator at the top level. */
  function ResolveOne(s: string, vals: Valuation): Result<bool>
    requires s != []
    decreases |s|, 0, 0
  {
    if s[0] == '!' then
      match Resolve(s[1..], vals)
      case Err(e) => Err(e)
      case Ok(b) => Ok(!b)
    else if s[0] == '(' then
      if |s| == 1 then Err(ParenthesisParity) else Resolve(s[1..|s| - 1], vals)
    else if s == "1" then Ok(true)
    else if s == "0" then Ok(false)
    else if s !in vals then Err(VariableNotFound)
    else Ok(vals[s])
  }

  /** The conjunction (`all`) or disjunction of the pieces; the first failing piece fails it. */
  function ResolveAll(ps: seq<string>, vals: Valuation, all: bool, n: nat): Result<bool>
    requires forall k :: 0 <= k < |ps| ==> |ps[k]| < n
    decreases n, 0, |ps|
  {
    if ps == [] then Ok(all)
    else match Resolve(ps[0], vals)
      case Err(e) => Err(e)
      case Ok(b) =>
        match ResolveAll(ps[1..], vals, all, n)
        case Err(e) => Err(e)
        case Ok(c) => Ok(if all then b && c else b || c)
  }

  function Join(all: bool, acc: bool, r: Result<bool>): Result<bool> {
    match r
    case Err(e) => Err(e)
    case Ok(c) => Ok(if all then acc && c else acc || c)
  }

  method Evaluate(source: string, vals: Valuation) returns (r: Result<bool>)
    ensures r == Resolve(source, vals)
    decreases |source|, 1
  {
    var s := RemoveWhitespaces(source);
    r := EvaluateRec(s, vals);
  }

  method EvaluateRec(source: string, vals: Valuation) returns (r: Result<bool>)
    ensures r == ResolveRec(source, vals)
    decreases |source|, 0
  {
    hide Split;
    if source == [] {
      return Err(EmptySubExpression);
    }
    var op := '|';
    var parsed := SingleParse(source, op);
    if parsed.Ok? && |parsed.value| == 1 {
      op := '&';
      parsed := SingleParse(source, op);
    }
    if parsed.Err? {
      return Err(parsed.error);
    }
    var ps := parsed.value;
    if |ps| == 0 {
      return Err(NotAFormula);
    } else if |ps| == 1 {
      if source[0] == '!' {
        var b := Evaluate(source[1..], vals);
        return if b.Ok? then Ok(!b.value) else b;
      } else if source[0] == '(' {
        if |source| == 1 {
          return Err(ParenthesisParity);
        }
        r := Evaluate(source[1..|source| - 1], vals);
      } else if source == "1" {
        return Ok(true);
      } else if source == "0" {
        return Ok(false);
      } else if source !in vals {
        return Err(VariableNotFound);
      } else {
        return Ok(vals[source]);
      }
    } else {
      var all := op == '&';
      var result := all;
      var i := 0;
      while i < |ps|
        invariant 0 <= i <= |ps|
        invariant ResolveAll(ps, vals, all, |source|) == Join(all, result, ResolveAll(ps[i..], vals, all, |source|))
      {
        var b := Evaluate(ps[i], vals);
        assert ps[i..][1..] == ps[i + 1..];
        if b.Err? {
          return b;
        }
        result := if all then result && b.value else result || b.value;
        i := i + 1;
      }
      return Ok(result);
    }
  }

  // ---------------------------------------------------------------------------------------
  // The texts that are accepted.
  // ---------------------------------------------------------------------------------------

  /** A character that the scan passes over while no piece has begun. */
  predicate IsJunk(c: char) {
    !BelongsToName(c) && c != '!' && c != '(' && c != ')' && !IsSpace(c)
  }

  ghost predicate AllJunk(w: string) {
    forall k :: 0 <= k < |w| ==> IsJunk(w[k])
  }

  /** A text by its structure: a unit, or a chain of one operator after characters that are skipped. */
  datatype Text =
    | Const(value: bool)
    | Var(name: string)
    | Not(arg: Text)
    | Group(arg: Text)
    | Chain(junk: string, op: char, parts: seq<Text>)

  function Joined(ws: seq<string>, op: char): string {
    if ws == [] then []
    else if |ws| == 1 then ws[0]
    else ws[0] + [op] + Joined(ws[1..], op)
  }

  function Show(t: Text): string {
    match t
    case Const(b) => if b then "1" else "0"
    case Var(n) => n
    case Not(x) => "!" + Show(x)
    case Group(x) => "(" + Show(x) + ")"
    case Chain(junk, op, parts) => junk + Joined(seq(|parts|, k requires 0 <= k < |parts| => Show(parts[k])), op)
  }

  function Shows(ts: seq<Text>): (ws: seq<string>)
    ensures |ws| == |ts| && forall k :: 0 <= k < |ts| ==> ws[k] == Show(ts[k])
  {
    seq(|ts|, k requires 0 <= k < |ts| => Show(ts[k]))
  }

  ghost predicate NameOk(n: string) {
    n != [] && n != "0" && n != "1" && forall i :: 0 <= i < |n| ==> BelongsToName(n[i])
  }

  /**
   The accepted texts. A chain has at least two parts; those of "&" are units. A part of "|" is a unit
   or a chain of "&", and such a chain may follow skipped operators "&" unless it comes first.
   */
  ghost predicate WellFormed(t: Text) {
    match t
    case Const(_) => true
    case Var(n) => NameOk(n)
    case Not(x) => WellFormed(x) && !x.Chain?
    case Group(x) => WellFormed(x)
    case Chain(junk, op, parts) =>
      && (op == '&' || op == '|') && AllJunk(junk) && |parts| >= 2
      && (forall k :: 0 <= k < |parts| ==> WellFormed(parts[k]))
      && forall k :: 0 <= k < |parts| ==> PartOk(parts[k], op, k == 0)
  }

  ghost predicate PartOk(t: Text, op: char, first: bool) {
    t.Chain? ==> op == '|' && t.op == '&' && (if first then t.junk == [] else AllAre(t.junk, '&'))
  }

  ghost predicate AllAre(w: string, c: char) {
    forall k :: 0 <= k < |w| ==> w[k] == c
  }

  ghost predicate Known(t: Text, vals: Valuation) {
    match t
    case Const(_) => true
    case Var(n) => n in vals
    case Not(x) => Known(x, vals)
    case Group(x) => Known(x, vals)
    case Chain(_, _, parts) => forall k :: 0 <= k < |parts| ==> Known(parts[k], vals)
  }

  /** Skipped characters do not count; "&" is conjunction and "|" disjunction. */
  ghost function Value(t: Text, vals: Valuation): bool
    requires Known(t, vals)
  {
    match t
    case Const(b) => b
    case Var(n) => vals[n]
    case Not(x) => !Value(x, vals)
    case Group(x) => Value(x, vals)
    case Chain(_, op, parts) =>
      if op == '&' then forall k :: 0 <= k < |parts| ==> Value(parts[k], vals)
      else exists k :: 0 <= k < |parts| && Value(parts[k], vals)
  }

  // ---------------------------------------------------------------------------------------
  // Words and their parentheses.
  // ---------------------------------------------------------------------------------------

  function Nesting(c: char): int {
    if c == '(' then 1 else if c == ')' then -1 else 0
  }

  function Parity(w: string): int {
    if w == [] then 0 else Parity(w[..|w| - 1]) + Nesting(w[|w| - 1])
  }

  /** Every parenthesis has its partner. */
  ghost predicate Nested(w: string) {
    Parity(w) == 0 && forall n :: 0 <= n <= |w| ==> Parity(w[..n]) >= 0
  }

  /** A character outside parentheses that the scan for `op` passes over within a piece. */
  predicate Calm(c: char, op: char) {
    BelongsToName(c) || c == '!' || c == '(' || ((c == '&' || c == '|') && c != op)
  }

  /** The scan for `op` passes over the word within a piece. */
  ghost predicate Quiet(w: string, op: char) {
    Nested(w) && forall n :: 0 <= n < |w| && Parity(w[..n]) == 0 ==> Calm(w[n], op)
  }

  lemma {:induction false} ParityConcat(a: string, b: string)
    ensures Parity(a + b) == Parity(a) + Parity(b)
  {
    if b == [] {
      assert a + b == a;
    } else {
      ParityConcat(a, b[..|b| - 1]);
      assert (a + b)[..|a + b| - 1] == a + b[..|b| - 1];
    }
  }

  lemma PrefixOf(a: string, b: string, n: nat)
    requires n <= |a| + |b|
    ensures (a + b)[..n] == if n <= |a| then a[..n] else a + b[..n - |a|]
  {
  }

  lemma PrefixParity(a: string, b: string, n: nat)
    requires n <= |a| + |b| && Nested(a)
    ensures Parity((a + b)[..n]) == if n <= |a| then Parity(a[..n]) else Parity(b[..n - |a|])
  {
    hide Parity;
    PrefixOf(a, b, n);
    if n > |a| {
      ParityConcat(a, b[..n - |a|]);
    }
  }

  lemma NestedConcat(a: string, b: string)
    requires Nested(a) && Nested(b)
    ensures Nested(a + b)
  {
    hide Parity;
    ParityConcat(a, b);
    forall n | 0 <= n <= |a + b|
      ensures Parity((a + b)[..n]) >= 0
    {
      PrefixParity(a, b, n);
    }
  }

  lemma QuietConcat(a: string, b: string, op: char)
    requires Nested(a) && Nested(b)
    ensures Quiet(a + b, op) <==> Quiet(a, op) && Quiet(b, op)
  {
    hide Parity, Calm, Nested;
    NestedConcat(a, b);
    if Quiet(a, op) && Quiet(b, op) {
      forall n | 0 <= n < |a + b| && Parity((a + b)[..n]) == 0
        ensures Calm((a + b)[n], op)
      {
        PrefixParity(a, b, n);
        if n == |a| {
          Seam(a, b);
        }
      }
    }
    if Quiet(a + b, op) {
      forall n | 0 <= n < |a| && Parity(a[..n]) == 0
        ensures Calm(a[n], op)
      {
        PrefixParity(a, b, n);
        assert (a + b)[n] == a[n];
      }
      forall n | 0 <= n < |b| && Parity(b[..n]) == 0
        ensures Calm(b[n], op)
      {
        PrefixParity(a, b, |a| + n);
        if n == 0 {
          Seam(a, b);
        }
        assert (a + b)[|a| + n] == b[n];
      }
    }
  }

  /** At the seam, nothing of the second word has been seen. */
  lemma Seam(a: string, b: string)
    requires Nested(a)
    ensures Parity((a + b)[..|a|]) == 0 && Parity(b[..0]) == 0
  {
    assert (a + b)[..|a|] == a;
  }

  lemma OneChar(c: char, op: char)
    requires c != '(' && c != ')'
    ensures Nested([c]) && (Quiet([c], op) <==> Calm(c, op))
  {
    assert [c][..0] == [] && [c][..1] == [c];
    assert Parity([c]) == 0;
  }

  lemma EmptyWord(op: char)
    ensures Nested([]) && Quiet([], op)
  {
  }

  /** Inside parentheses anything nested is quiet. */
  lemma QuietGroup(w: string, op: char)
    requires Nested(w)
    ensures Quiet("(" + w + ")", op)
  {
    hide Parity;
    var g := "(" + w + ")";
    forall n | 0 <= n <= |g|
      ensures Parity(g[..n]) >= 0 && (0 < n < |g| ==> Parity(g[..n]) > 0)
    {
      GroupParity(w, n);
    }
    GroupParity(w, |g|);
    assert g[..|g|] == g;
  }

  lemma GroupParity(w: string, n: nat)
    requires Nested(w) && n <= |w| + 2
    ensures Parity(("(" + w + ")")[..n]) == if n == 0 || n == |w| + 2 then 0 else 1 + Parity(w[..n - 1])
  {
    var g := "(" + w + ")";
    if n == 0 {
      assert g[..n] == [];
    } else if n <= |w| + 1 {
      assert g[..n] == "(" + w[..n - 1];
      ParityConcat("(", w[..n - 1]);
      assert Parity("(") == 1;
    } else {
      assert g[..n] == ("(" + w) + ")";
      ParityConcat("(" + w, ")");
      ParityConcat("(", w);
      assert Parity("(") == 1 && Parity(")") == -1;
    }
  }

  lemma {:induction false} NestedJoined(ws: seq<string>, op: char)
    requires op == '&' || op == '|'
    requires forall k :: 0 <= k < |ws| ==> Nested(ws[k])
    ensures Nested(Joined(ws, op))
  {
    hide Nested;
    EmptyWord(op);
    if |ws| >= 2 {
      NestedJoined(ws[1..], op);
      OneChar(op, op);
      NestedConcat(ws[0], [op]);
      NestedConcat(ws[0] + [op], Joined(ws[1..], op));
    }
  }

  lemma {:induction false} QuietJoined(ws: seq<string>, op: char, other: char)
    requires (op == '&' && other == '|') || (op == '|' && other == '&')
    requires forall k :: 0 <= k < |ws| ==> Quiet(ws[k], other)
    ensures Quiet(Joined(ws, op), other)
  {
    hide Nested;
    EmptyWord(other);
    if |ws| >= 2 {
      QuietJoined(ws[1..], op, other);
      OneChar(op, other);
      QuietConcat(ws[0], [op], other);
      NestedConcat(ws[0], [op]);
      QuietConcat(ws[0] + [op], Joined(ws[1..], op), other);
    }
  }

  /** A chain is not quiet for its own operator. */
  lemma JoinedNotQuiet(ws: seq<string>, op: char)
    requires (op == '&' || op == '|') && |ws| >= 2
    requires forall k :: 0 <= k < |ws| ==> Nested(ws[k])
    ensures !Quiet(Joined(ws, op), op)
  {
    hide Nested;
    OneChar(op, op);
    NestedJoined(ws[1..], op);
    NestedConcat(ws[0], [op]);
    QuietConcat(ws[0], [op], op);
    QuietConcat(ws[0] + [op], Joined(ws[1..], op), op);
  }

  lemma {:induction false} JunkNested(w: string)
    requires AllJunk(w)
    ensures Nested(w)
  {
    hide Nested;
    EmptyWord('&');
    if w != [] {
      var v := w[..|w| - 1];
      JunkNested(v);
      OneChar(w[|w| - 1], '&');
      NestedConcat(v, [w[|w| - 1]]);
      assert w == v + [w[|w| - 1]];
    }
  }

  /** Skipped characters are quiet in a piece only if they are the other operator. */
  lemma {:induction false} JunkQuiet(w: string, op: char, other: char)
    requires AllJunk(w) && ((op == '&' && other == '|') || (op == '|' && other == '&'))
    ensures Quiet(w, op) <==> AllAre(w, other)
  {
    hide Nested;
    EmptyWord(op);
    if w != [] {
      var v, c := w[..|w| - 1], w[|w| - 1];
      assert w == v + [c];
      JunkQuiet(v, op, other);
      JunkNested(v);
      OneChar(c, op);
      QuietConcat(v, [c], op);
      assert AllAre(w, other) <==> AllAre(v, other) && c == other;
    }
  }

  // ---------------------------------------------------------------------------------------
  // The words of texts.
  // ---------------------------------------------------------------------------------------

  lemma ShowChain(t: Text)
    requires t.Chain?
    ensures Show(t) == t.junk + Joined(Shows(t.parts), t.op)
  {
    assert Shows(t.parts) == seq(|t.parts|, k requires 0 <= k < |t.parts| => Show(t.parts[k]));
  }

  /** A name, a constant or a negation sign: no parentheses. */
  lemma {:induction false} PlainQuiet(w: string, op: char)
    requires (forall k :: 0 <= k < |w| ==> BelongsToName(w[k])) && (op == '&' || op == '|')
    ensures Quiet(w, op)
  {
    hide Nested;
    EmptyWord(op);
    if w != [] {
      var v, c := w[..|w| - 1], w[|w| - 1];
      PlainQuiet(v, op);
      OneChar(c, op);
      QuietConcat(v, [c], op);
      assert w == v + [c];
    }
  }

  lemma {:induction false} ShownNested(t: Text)
    requires WellFormed(t)
    ensures Nested(Show(t))
    ensures !t.Chain? ==> Quiet(Show(t), '&') && Quiet(Show(t), '|')
  {
    hide Nested, Quiet;
    match t
    case Const(_) =>
      PlainQuiet(Show(t), '&');
      PlainQuiet(Show(t), '|');
      QuietNested(Show(t), '&');
    case Var(_) =>
      PlainQuiet(Show(t), '&');
      PlainQuiet(Show(t), '|');
      QuietNested(Show(t), '&');
    case Not(x) =>
      ShownNested(x);
      OneChar('!', '&');
      OneChar('!', '|');
      QuietConcat("!", Show(x), '&');
      QuietConcat("!", Show(x), '|');
      NestedConcat("!", Show(x));
    case Group(x) =>
      ShownNested(x);
      QuietGroup(Show(x), '&');
      QuietGroup(Show(x), '|');
      QuietNested(Show(t), '&');
    case Chain(junk, op, parts) =>
      forall k | 0 <= k < |parts|
        ensures Nested(Show(parts[k]))
      {
        ShownNested(parts[k]);
      }
      ShowChain(t);
      JunkNested(junk);
      NestedJoined(Shows(parts), op);
      NestedConcat(junk, Joined(Shows(parts), op));
  }

  lemma QuietNested(w: string, op: char)
    requires Quiet(w, op)
    ensures Nested(w)
  {
  }

  /** What a text is like whose word is quiet. */
  lemma QuietMeans(t: Text, op: char, other: char)
    requires WellFormed(t) && Quiet(Show(t), op) && t.Chain?
    requires (op == '&' && other == '|') || (op == '|' && other == '&')
    ensures t.op == other && AllAre(t.junk, other)
  {
    hide Nested, Quiet;
    var ws := Shows(t.parts);
    ShowChain(t);
    forall k | 0 <= k < |ws|
      ensures Nested(ws[k])
    {
      ShownNested(t.parts[k]);
    }
    JunkNested(t.junk);
    NestedJoined(ws, t.op);
    QuietConcat(t.junk, Joined(ws, t.op), op);
    JunkQuiet(t.junk, op, other);
    if t.op == op {
      JoinedNotQuiet(ws, op);
    }
  }

  /** A part of a disjunction is quiet for "|". */
  lemma PartQuiet(t: Text, first: bool)
    requires WellFormed(t) && PartOk(t, '|', first)
    ensures Quiet(Show(t), '|')
  {
    hide Nested, Quiet;
    ShownNested(t);
    if t.Chain? {
      var ws := Shows(t.parts);
      ShowChain(t);
      forall k | 0 <= k < |ws|
        ensures Quiet(ws[k], '|')
      {
        assert PartOk(t.parts[k], '&', k == 0);
        ShownNested(t.parts[k]);
      }
      QuietJoined(ws, '&', '|');
      QuietNested(Joined(ws, '&'), '|');
      JunkNested(t.junk);
      JunkQuiet(t.junk, '|', '&');
      QuietConcat(t.junk, Joined(ws, '&'), '|');
    }
  }

  /** The first character of a piece that the scan begins by itself. */
  predicate Begins(w: string) {
    w != [] && (BelongsToName(w[0]) || w[0] == '!' || w[0] == '(')
  }

  lemma UnitBegins(t: Text)
    requires WellFormed(t) && !t.Chain?
    ensures Begins(Show(t))
  {
  }

  /** So does a chain after its skipped characters. */
  lemma ChainBegins(t: Text)
    requires WellFormed(t) && t.Chain?
    ensures Shows(t.parts) != [] && Begins(Shows(t.parts)[0]) && Begins(Joined(Shows(t.parts), t.op))
    decreases t
  {
    var x := t.parts[0];
    assert PartOk(x, t.op, true);
    if x.Chain? {
      ChainBegins(x);
      ShowChain(x);
      assert [] + Joined(Shows(x.parts), x.op) == Joined(Shows(x.parts), x.op);
    } else {
      UnitBegins(x);
    }
  }

  // ---------------------------------------------------------------------------------------
  // The scan on words.
  // ---------------------------------------------------------------------------------------

  /** `p` stands in `f` at position `i`. */
  ghost predicate At(f: string, i: nat, p: string) {
    i + |p| <= |f| && f[i..i + |p|] == p
  }

  lemma AtChar(f: string, i: nat, p: string, n: nat)
    requires At(f, i, p) && n < |p|
    ensures i + n < |f| && f[i + n] == p[n]
  {
    assert f[i..i + |p|][n] == f[i + n];
  }

  lemma AtBound(f: string, i: nat, p: string)
    requires At(f, i, p)
    ensures i + |p| <= |f|
  {
  }

  lemma NoPrefix(w: string)
    ensures Parity(w[..0]) == 0
  {
  }

  lemma AtSplit(f: string, i: nat, p: string, q: string)
    requires At(f, i, p + q)
    ensures At(f, i, p) && At(f, i + |p|, q)
  {
    var s := f[i..i + |p + q|];
    assert s[..|p|] == p && s[|p|..] == q;
  }

  lemma {:induction false} RunCompose(f: string, op: char, i: nat, j: nat, k: nat, st: State, t: State)
    requires i <= j <= k <= |f| && StateOk(f, i, st) && Run(f, op, i, j, st) == Ok(t)
    ensures StateOk(f, j, t) && Run(f, op, i, k, st) == Run(f, op, j, k, t)
    decreases j - i
  {
    if i < j {
      RunCompose(f, op, i + 1, j, k, Step(f, op, i, st).value, t);
    }
  }

  lemma RunOne(f: string, op: char, i: nat, st: State)
    requires i < |f| && StateOk(f, i, st)
    ensures Run(f, op, i, i + 1, st) == Step(f, op, i, st)
  {
    match Step(f, op, i, st)
    case Err(_) =>
    case Ok(t) => assert Run(f, op, i + 1, i + 1, t) == Ok(t);
  }

  lemma RunNone(f: string, op: char, i: nat, st: State)
    requires i <= |f| && StateOk(f, i, st)
    ensures Run(f, op, i, i, st) == Ok(st)
  {
  }

  lemma RunMore(f: string, op: char, i: nat, j: nat, st: State, t: State)
    requires i <= j < |f| && StateOk(f, i, st) && Run(f, op, i, j, st) == Ok(t)
    ensures StateOk(f, j, t) && Run(f, op, i, j + 1, st) == Step(f, op, j, t)
  {
    hide Run, Step, StateOk;
    RunCompose(f, op, i, j, j + 1, st, t);
    RunOne(f, op, j, t);
  }

  lemma PrefixStep(w: string, n: nat)
    requires n < |w|
    ensures Parity(w[..n + 1]) == Parity(w[..n]) + Nesting(w[n])
  {
    assert w[..n + 1][..n] == w[..n];
  }

  /** A quiet word leaves the state alone. */
  lemma {:induction false} RunQuiet(f: string, op: char, i: nat, w: string, n: nat, st: State)
    requires At(f, i, w) && Quiet(w, op) && n <= |w| && StateOk(f, i, st) && st.depth == 0 && st.start != -1
    ensures Run(f, op, i, i + n, st) == Ok(st.(depth := Parity(w[..n])))
  {
    hide Run, StateOk, At, Parity;
    if n == 0 {
      AtBound(f, i, w);
      RunNone(f, op, i, st);
      NoPrefix(w);
    } else {
      RunQuiet(f, op, i, w, n - 1, st);
      AtChar(f, i, w, n - 1);
      var t := st.(depth := Parity(w[..n - 1]));
      RunMore(f, op, i, i + n - 1, st, t);
      PrefixStep(w, n - 1);
      assert Parity(w[..n - 1]) >= 0;
    }
  }

  lemma {:induction false} PartsGrow(f: string, op: char, i: nat, j: nat, st: State, u: State)
    requires i <= j <= |f| && StateOk(f, i, st) && Run(f, op, i, j, st) == Ok(u)
    ensures st.parts <= u.parts && (st.start != -1 ==> u.start != -1)
    ensures |u.parts| > |st.parts| ==> u.start != -1
    ensures u.parts == st.parts && st.start != -1 ==> u.start == st.start
    decreases j - i
  {
    if i < j {
      PartsGrow(f, op, i + 1, j, Step(f, op, i, st).value, u);
    }
  }

  /** Conversely, a nested word that leaves the pieces alone is quiet. */
  lemma {:induction false} QuietRun(f: string, op: char, i: nat, w: string, n: nat, st: State, u: State)
    requires At(f, i, w) && Nested(w) && n <= |w| && StateOk(f, i, st) && st.depth == 0 && st.start != -1
    requires op == '&' || op == '|'
    requires i + |w| <= |f| && Run(f, op, i, i + |w|, st) == Ok(u) && u.parts == st.parts
    ensures Run(f, op, i, i + n, st) == Ok(st.(depth := Parity(w[..n])))
    ensures forall m :: 0 <= m < n && Parity(w[..m]) == 0 ==> Calm(w[m], op)
  {
    hide Run, StateOk, At, Parity, Calm;
    if n == 0 {
      AtBound(f, i, w);
      RunNone(f, op, i, st);
      NoPrefix(w);
    } else {
      QuietRun(f, op, i, w, n - 1, st, u);
      AtChar(f, i, w, n - 1);
      PrefixStep(w, n - 1);
      assert Parity(w[..n - 1]) >= 0;
      QuietStep(f, op, i, i + n - 1, i + |w|, st, st.(depth := Parity(w[..n - 1])), u);
    }
  }

  /** One character further without a new piece. */
  lemma QuietStep(f: string, op: char, i: nat, j: nat, k: nat, st: State, t: State, u: State)
    requires i <= j < k <= |f| && StateOk(f, i, st) && t.start != -1 && t.depth >= 0 && (op == '&' || op == '|')
    requires Run(f, op, i, j, st) == Ok(t) && Run(f, op, i, k, st) == Ok(u) && u.parts == t.parts
    requires t.depth + Nesting(f[j]) >= 0
    ensures Run(f, op, i, j + 1, st) == Ok(t.(depth := t.depth + Nesting(f[j])))
    ensures t.depth == 0 ==> Calm(f[j], op)
  {
    hide Run;
    RunMore(f, op, i, j, st, t);
    RunCompose(f, op, i, j, k, st, t);
    RunOnward(f, op, j, k, t, u);
  }

  lemma RunOnward(f: string, op: char, j: nat, k: nat, t: State, u: State)
    requires j < k <= |f| && StateOk(f, j, t) && Run(f, op, j, k, t) == Ok(u) && u.parts == t.parts
    ensures Step(f, op, j, t).Ok? && Step(f, op, j, t).value.parts == t.parts
  {
    PartsGrow(f, op, j + 1, k, Step(f, op, j, t).value, u);
  }

  lemma {:induction false} RunDepth(f: string, op: char, i: nat, j: nat, st: State, u: State)
    requires i <= j <= |f| && StateOk(f, i, st) && Run(f, op, i, j, st) == Ok(u)
    ensures u.depth == st.depth + Parity(f[i..j])
    decreases j - i
  {
    if i < j {
      var t := Step(f, op, i, st).value;
      RunDepth(f, op, i + 1, j, t, u);
      assert f[i..j] == [f[i]] + f[i + 1..j];
      ParityConcat([f[i]], f[i + 1..j]);
      assert Parity([f[i]]) == Nesting(f[i]);
    }
  }

  // ---------------------------------------------------------------------------------------
  // Where the first piece begins.
  // ---------------------------------------------------------------------------------------

  function StartOf(f: string, i: nat, depth: int): (r: (nat, int))
    requires i <= |f|
    ensures i <= r.0 <= |f|
    decreases |f| - i
  {
    if i == |f| then (i, depth)
    else if f[i] == ')' then StartOf(f, i + 1, depth - 1)
    else if f[i] == '(' || (depth == 0 && (BelongsToName(f[i]) || f[i] == '!')) then (i, depth)
    else StartOf(f, i + 1, depth)
  }

  lemma {:induction false} RunToStart(f: string, op: char, i: nat, depth: int)
    requires i <= |f|
    ensures var (k, d) := StartOf(f, i, depth);
            Run(f, op, i, |f|, State(-1, depth, []))
            == if k == |f| then Ok(State(-1, d, [])) else Run(f, op, k, |f|, State(k, d, []))
    decreases |f| - i
  {
    var st := State(-1, depth, []);
    if i < |f| {
      if StartOf(f, i, depth) == (i, depth) {
        assert Step(f, op, i, st) == Step(f, op, i, State(i, depth, []));
      } else {
        var d := if f[i] == ')' then depth - 1 else depth;
        assert Step(f, op, i, st) == Ok(State(-1, d, []));
        RunToStart(f, op, i + 1, d);
      }
    }
  }

  ghost predicate NoSpaces(w: string) {
    forall k :: 0 <= k < |w| ==> !IsSpace(w[k])
  }

  /** If the depth is back where it was, only junk was passed. */
  lemma {:induction false} StartFacts(f: string, i: nat, depth: int)
    requires i <= |f| && depth <= 0 && NoSpaces(f)
    ensures var (k, d) := StartOf(f, i, depth);
            && d <= depth && (d == depth == 0 ==> AllJunk(f[i..k]))
            && (k < |f| ==> f[k] == '(' || (d == 0 && Begins(f[k..])))
    decreases |f| - i
  {
    if i < |f| && StartOf(f, i, depth) != (i, depth) {
      StartFacts(f, i + 1, if f[i] == ')' then depth - 1 else depth);
    }
  }

  lemma {:induction false} StartIs(f: string, i: nat, k: nat)
    requires i <= k < |f| && AllJunk(f[i..k]) && Begins(f[k..])
    ensures StartOf(f, i, 0) == (k, 0)
    decreases k - i
  {
    assert f[k..][0] == f[k];
    if i < k {
      assert IsJunk(f[i..k][0]);
      assert f[i + 1..k] == f[i..k][1..];
      StartIs(f, i + 1, k);
    }
  }

  // ---------------------------------------------------------------------------------------
  // Splitting a joined text gives the parts, and only that does.
  // ---------------------------------------------------------------------------------------

  lemma {:induction false} RunJoined(f: string, op: char, i: nat, ws: seq<string>, parts: seq<string>)
    requires (op == '&' || op == '|') && ws != [] && forall k :: 0 <= k < |ws| ==> Quiet(ws[k], op)
    requires At(f, i, Joined(ws, op)) && i + |Joined(ws, op)| == |f| && StateOk(f, i, State(i, 0, parts))
    ensures var u := State(|f| - |ws[|ws| - 1]|, 0, parts + ws[..|ws| - 1]);
            u.start >= 0 && f[u.start..] == ws[|ws| - 1] && Run(f, op, i, |f|, State(i, 0, parts)) == Ok(u)
    decreases |ws|
  {
    hide Run, Quiet, Joined, StateOk, At;
    var w := ws[0];
    JoinedStep(ws, op);
    if |ws| == 1 {
      RunWord(f, op, i, w, State(i, 0, parts));
      Suffix(f, i, w);
      assert parts + ws[..0] == parts;
    } else {
      RunFirst(f, op, i, w, Joined(ws[1..], op), parts);
      RunJoined(f, op, i + |w| + 1, ws[1..], parts + [w]);
      assert parts + [w] + ws[1..][..|ws| - 2] == parts + ws[..|ws| - 1];
    }
  }

  lemma RunWord(f: string, op: char, i: nat, w: string, st: State)
    requires At(f, i, w) && Quiet(w, op) && StateOk(f, i, st) && st.depth == 0 && st.start != -1
    ensures i + |w| <= |f| && Run(f, op, i, i + |w|, st) == Ok(st)
  {
    hide Run, StateOk, Calm;
    RunQuiet(f, op, i, w, |w|, st);
    assert w[..|w|] == w;
  }

  lemma Suffix(f: string, i: nat, w: string)
    requires At(f, i, w) && i + |w| == |f|
    ensures f[i..] == w
  {
  }

  /** The first word and the operator after it make a piece. */
  lemma RunFirst(f: string, op: char, i: nat, w: string, rest: string, parts: seq<string>)
    requires (op == '&' || op == '|') && At(f, i, w + [op] + rest) && Quiet(w, op) && StateOk(f, i, State(i, 0, parts))
    ensures var j := i + |w| + 1;
            && j <= |f| && At(f, j, rest) && StateOk(f, j, State(j, 0, parts + [w]))
            && Run(f, op, i, |f|, State(i, 0, parts)) == Run(f, op, j, |f|, State(j, 0, parts + [w]))
  {
    hide Run, Quiet, StateOk, At, Step;
    var st, j := State(i, 0, parts), i + |w|;
    PairAt(f, i, w, op, rest);
    RunWord(f, op, i, w, st);
    RunMore(f, op, i, j, st, st);
    NextPiece(f, op, i, j, parts);
    RunCompose(f, op, i, j + 1, |f|, st, State(j + 1, 0, parts + [w]));
  }

  lemma PairAt(f: string, i: nat, w: string, c: char, rest: string)
    requires At(f, i, w + [c] + rest)
    ensures i + |w| < |f| && f[i + |w|] == c && f[i..i + |w|] == w && At(f, i, w) && At(f, i + |w| + 1, rest)
  {
    AtSplit(f, i, w + [c], rest);
    AtSplit(f, i, w, [c]);
    AtChar(f, i + |w|, [c], 0);
  }

  lemma NextPiece(f: string, op: char, i: nat, j: nat, parts: seq<string>)
    requires i <= j < |f| && f[j] == op && (op == '&' || op == '|') && StateOk(f, j, State(i, 0, parts))
    ensures Step(f, op, j, State(i, 0, parts)) == Ok(State(j + 1, 0, parts + [f[i..j]]))
  {
  }

  lemma JoinedStep(ws: seq<string>, op: char)
    requires ws != []
    ensures Joined(ws, op) == if |ws| == 1 then ws[0] else ws[0] + [op] + Joined(ws[1..], op)
  {
  }

  lemma SplitIs(f: string, op: char, junk: string, ws: seq<string>)
    requires (op == '&' || op == '|') && ws != [] && forall k :: 0 <= k < |ws| ==> Quiet(ws[k], op)
    requires f == junk + Joined(ws, op) && AllJunk(junk) && Begins(Joined(ws, op))
    ensures Split(f, op) == Ok(ws)
  {
    hide Run, Quiet, Joined;
    var i := |junk|;
    assert f[0..i] == junk && f[i..] == Joined(ws, op);
    StartIs(f, 0, i);
    RunToStart(f, op, 0, 0);
    RunJoined(f, op, i, ws, []);
    assert [] + ws[..|ws| - 1] == ws[..|ws| - 1];
    assert ws == ws[..|ws| - 1] + [ws[|ws| - 1]];
  }

  /** The first character that ends the current piece, or the end. */
  lemma {:induction false} FirstSplit(f: string, op: char, i: nat, st: State, u: State) returns (j: nat, v: State)
    requires i <= |f| && StateOk(f, i, st) && st.start != -1 && Run(f, op, i, |f|, st) == Ok(u)
    ensures i <= j <= |f| && StateOk(f, j, v) && Run(f, op, i, j, st) == Ok(v)
    ensures v.start == st.start && v.parts == st.parts && Run(f, op, j, |f|, v) == Ok(u)
    ensures j < |f| ==> v.depth == 0 && f[j] == op && Step(f, op, j, v) == Ok(State(j + 1, 0, st.parts + [f[st.start..j]]))
    decreases |f| - i
  {
    j, v := i, st;
    if i < |f| {
      var t := Step(f, op, i, st).value;
      if t.parts == st.parts {
        j, v := FirstSplit(f, op, i + 1, t, u);
      }
    }
  }

  /** If all pieces are nested, the text from the first of them on is the joined pieces, all quiet. */
  lemma {:induction false} PiecesJoin(f: string, op: char, start: nat, depth: int, parts: seq<string>, u: State)
    requires (op == '&' || op == '|') && start <= |f| && StateOk(f, start, State(start, depth, parts))
    requires Run(f, op, start, |f|, State(start, depth, parts)) == Ok(u) && u.depth == 0
    requires forall k :: |parts| <= k < |Ends(f, u)| ==> Nested(Ends(f, u)[k])
    ensures u.start != -1 && depth == 0 && |parts| < |Ends(f, u)| && parts == Ends(f, u)[..|parts|]
    ensures f[start..] == Joined(Ends(f, u)[|parts|..], op)
    ensures forall k :: |parts| <= k < |Ends(f, u)| ==> Quiet(Ends(f, u)[k], op)
    decreases |f| - start
  {
    hide Run, Nested, Quiet, Joined, Step, StateOk, Parity;
    var st := State(start, depth, parts);
    PartsGrow(f, op, start, |f|, st, u);
    var ws := Ends(f, u);
    var j, v := FirstSplit(f, op, start, st, u);
    var w := f[start..j];
    if j == |f| {
      RunNone(f, op, j, v);
      assert f[start..] == w;
      assert ws == parts + [w] && ws[|parts|] == w;
      PieceQuiet(f, op, start, j, depth, parts, v);
      assert ws[|parts|..] == [w];
      JoinedStep([w], op);
    } else {
      NextEnds(f, op, start, j, parts, v, u);
      PieceQuiet(f, op, start, j, depth, parts, v);
      PiecesJoin(f, op, j + 1, 0, parts + [w], u);
      JoinEnds(f, op, start, j, ws, |parts|);
    }
  }

  /** A piece that is nested begins outside parentheses and is quiet. */
  lemma PieceQuiet(f: string, op: char, start: nat, j: nat, depth: int, parts: seq<string>, v: State)
    requires (op == '&' || op == '|') && start <= j <= |f| && StateOk(f, start, State(start, depth, parts))
    requires Run(f, op, start, j, State(start, depth, parts)) == Ok(v) && v.depth == 0 && v.parts == parts
    requires Nested(f[start..j])
    ensures depth == 0 && Quiet(f[start..j], op)
  {
    hide Run, Nested, Quiet, StateOk, Parity;
    var st := State(start, depth, parts);
    RunDepth(f, op, start, j, st, v);
    NestedParity(f[start..j]);
    assert At(f, start, f[start..j]);
    QuietPiece(f, op, start, f[start..j], st, v);
  }

  /** The piece that ends at `j` is the next one. */
  lemma NextEnds(f: string, op: char, start: nat, j: nat, parts: seq<string>, v: State, u: State)
    requires start <= j < |f| && StateOk(f, j, v) && Run(f, op, j, |f|, v) == Ok(u)
    requires Step(f, op, j, v) == Ok(State(j + 1, 0, parts + [f[start..j]])) && u.start != -1
    ensures var t := State(j + 1, 0, parts + [f[start..j]]);
            StateOk(f, j + 1, t) && Run(f, op, j + 1, |f|, t) == Ok(u)
    ensures |parts| < |u.parts| && StateOk(f, |f|, u) && Ends(f, u)[|parts|] == f[start..j]
  {
    hide Run;
    var t := State(j + 1, 0, parts + [f[start..j]]);
    RunAfter(f, op, j, v, t, u);
    PartsGrow(f, op, j + 1, |f|, t, u);
    assert u.parts[|parts|] == t.parts[|parts|];
  }

  lemma JoinEnds(f: string, op: char, start: nat, j: nat, ws: seq<string>, n: nat)
    requires start <= j < |f| && f[j] == op && n + 1 < |ws| && ws[n] == f[start..j] && f[j + 1..] == Joined(ws[n + 1..], op)
    ensures f[start..] == Joined(ws[n..], op)
  {
    JoinedStep(ws[n..], op);
    assert ws[n..][1..] == ws[n + 1..];
    assert f[start..] == f[start..j] + [op] + f[j + 1..];
  }

  /** The pieces at the end of a scan. */
  ghost function Ends(f: string, u: State): seq<string>
    requires StateOk(f, |f|, u)
  {
    if u.start == -1 then u.parts else u.parts + [f[u.start..]]
  }

  lemma NestedParity(w: string)
    requires Nested(w)
    ensures Parity(w) == 0
  {
  }

  lemma RunAfter(f: string, op: char, j: nat, v: State, t: State, u: State)
    requires j < |f| && StateOk(f, j, v) && Step(f, op, j, v) == Ok(t) && Run(f, op, j, |f|, v) == Ok(u)
    ensures Run(f, op, j + 1, |f|, t) == Ok(u)
  {
  }

  lemma QuietPiece(f: string, op: char, i: nat, w: string, st: State, v: State)
    requires (op == '&' || op == '|') && At(f, i, w) && Nested(w) && StateOk(f, i, st) && st.depth == 0 && st.start != -1
    requires i + |w| <= |f| && Run(f, op, i, i + |w|, st) == Ok(v) && v.parts == st.parts
    ensures Quiet(w, op)
  {
    hide Run, StateOk, At, Parity, Calm;
    QuietRun(f, op, i, w, |w|, st, v);
  }

  /** What a successful split says about the text, if its pieces are nested. */
  lemma SplitGives(f: string, op: char) returns (junk: string)
    requires (op == '&' || op == '|') && NoSpaces(f) && Split(f, op).Ok? && Split(f, op).value != []
    requires forall k :: 0 <= k < |Split(f, op).value| ==> Nested(Split(f, op).value[k])
    ensures f == junk + Joined(Split(f, op).value, op) && AllJunk(junk) && Begins(Joined(Split(f, op).value, op))
    ensures |junk| == StartOf(f, 0, 0).0
    ensures forall k :: 0 <= k < |Split(f, op).value| ==> Quiet(Split(f, op).value[k], op)
  {
    hide Run, Nested, Quiet, Joined, StartOf, AllJunk, NoSpaces, Begins, Split, Ends;
    RunToStart(f, op, 0, 0);
    StartFacts(f, 0, 0);
    var r := StartOf(f, 0, 0);
    var k := r.0;
    var ws := Split(f, op).value;
    var u := SplitState(f, op);
    PiecesJoin(f, op, k, r.1, [], u);
    assert ws[0..] == ws;
    junk := f[..k];
    assert f == f[..k] + f[k..] && f[0..k] == f[..k];
    PieceBegins(f, k);
  }

  /** The state that a successful split ends in. */
  lemma SplitState(f: string, op: char) returns (u: State)
    requires Split(f, op).Ok? && Split(f, op).value != []
    ensures Run(f, op, 0, |f|, State(-1, 0, [])) == Ok(u) && StateOk(f, |f|, u)
    ensures u.depth == 0 && u.start != -1 && Split(f, op).value == Ends(f, u)
  {
    hide Run;
    u := Run(f, op, 0, |f|, State(-1, 0, [])).value;
    PartsGrow(f, op, 0, |f|, State(-1, 0, []), u);
  }

  lemma PieceBegins(f: string, k: nat)
    requires k < |f| && (f[k] == '(' || Begins(f[k..]))
    ensures Begins(f[k..])
  {
    assert f[k..][0] == f[k];
  }

  // ---------------------------------------------------------------------------------------
  // The value of an accepted text.
  // ---------------------------------------------------------------------------------------

  lemma {:induction false} DenseIs(s: string)
    requires NoSpaces(s)
    ensures Dense(s) == s
  {
    if s != [] {
      DenseIs(s[1..]);
    }
  }

  lemma {:induction false} DenseHasNone(s: string)
    ensures NoSpaces(Dense(s))
  {
    if s != [] {
      DenseHasNone(s[1..]);
    }
  }

  lemma {:induction false} JoinedNoSpaces(ws: seq<string>, op: char)
    requires (op == '&' || op == '|') && forall k :: 0 <= k < |ws| ==> NoSpaces(ws[k])
    ensures NoSpaces(Joined(ws, op))
  {
    if |ws| >= 2 {
      JoinedNoSpaces(ws[1..], op);
    }
  }

  lemma {:induction false} ShownNoSpaces(t: Text)
    requires WellFormed(t)
    ensures NoSpaces(Show(t))
  {
    match t
    case Const(_) =>
    case Var(_) =>
    case Not(x) => ShownNoSpaces(x);
    case Group(x) => ShownNoSpaces(x);
    case Chain(junk, op, parts) =>
      forall k | 0 <= k < |parts|
        ensures NoSpaces(Shows(parts)[k])
      {
        ShownNoSpaces(parts[k]);
      }
      JoinedNoSpaces(Shows(parts), op);
      ShowChain(t);
  }

  /** All pieces must resolve; the result is their conjunction or disjunction. */
  lemma {:induction false} ResolveAllIs(ps: seq<string>, vals: Valuation, all: bool, n: nat)
    requires forall k :: 0 <= k < |ps| ==> |ps[k]| < n
    ensures ResolveAll(ps, vals, all, n).Ok? <==> forall k :: 0 <= k < |ps| ==> Resolve(ps[k], vals).Ok?
    ensures ResolveAll(ps, vals, all, n).Ok? ==>
              (ResolveAll(ps, vals, all, n).value <==>
                 if all then forall k :: 0 <= k < |ps| ==> Resolve(ps[k], vals).value
                 else exists k :: 0 <= k < |ps| && Resolve(ps[k], vals).value)
  {
    hide Resolve;
    if ps != [] {
      var rest := ps[1..];
      ResolveAllIs(rest, vals, all, n);
      assert forall k :: 0 <= k < |rest| ==> rest[k] == ps[k + 1];
      assert forall k :: 0 < k < |ps| ==> ps[k] == rest[k - 1];
    }
  }

  /** The text of an accepted structure resolves to its value. */
  lemma {:induction false} ResolveShown(t: Text, vals: Valuation)
    requires WellFormed(t) && Known(t, vals)
    ensures Resolve(Show(t), vals) == Ok(Value(t, vals))
    decreases t, 1
  {
    hide Resolve, ResolveRec;
    var s := Show(t);
    ShownNoSpaces(t);
    DenseIs(s);
    DenseResolve(s, vals);
    if t.Chain? {
      ResolveChain(t, vals);
    } else {
      ResolveUnit(t, vals);
    }
  }

  lemma DenseResolve(s: string, vals: Valuation)
    requires Dense(s) == s
    ensures Resolve(s, vals) == ResolveRec(s, vals)
  {
  }

  /** Text without an operator at the top is a negation, parentheses, a constant or a name. */
  lemma {:induction false} ResolveUnit(t: Text, vals: Valuation)
    requires WellFormed(t) && Known(t, vals) && !t.Chain?
    ensures ResolveRec(Show(t), vals) == Ok(Value(t, vals))
    decreases t, 0
  {
    hide Resolve, ResolveRec, ResolveOne;
    UnitSplits(t);
    ResolveAlone(Show(t), vals);
    match t
    case Const(_) =>
      ResolveAtom(Show(t), vals);
    case Var(n) =>
      assert BelongsToName(n[0]);
      ResolveAtom(n, vals);
    case Not(x) =>
      ResolveShown(x, vals);
      ResolveSign(Show(x), vals);
    case Group(x) =>
      ResolveShown(x, vals);
      ResolveGroup(Show(x), vals);
  }

  lemma ResolveAtom(s: string, vals: Valuation)
    requires s != [] && s[0] != '!' && s[0] != '('
    ensures ResolveOne(s, vals) == if s == "1" then Ok(true) else if s == "0" then Ok(false)
                                   else if s in vals then Ok(vals[s]) else Err(VariableNotFound)
  {
  }

  lemma ResolveSign(w: string, vals: Valuation)
    ensures ResolveOne("!" + w, vals) == match Resolve(w, vals) case Err(e) => Err(e) case Ok(b) => Ok(!b)
  {
    hide Resolve;
    assert ("!" + w)[1..] == w;
  }

  lemma ResolveGroup(w: string, vals: Valuation)
    ensures ResolveOne("(" + w + ")", vals) == Resolve(w, vals)
  {
    hide Resolve;
    var s := "(" + w + ")";
    assert s[1..|s| - 1] == w;
  }

  lemma UnitSplits(t: Text)
    requires WellFormed(t) && !t.Chain?
    ensures Show(t) != [] && Split(Show(t), '|') == Ok([Show(t)]) && Split(Show(t), '&') == Ok([Show(t)])
  {
    hide Split, Quiet;
    var s := Show(t);
    UnitBegins(t);
    ShownNested(t);
    JoinedStep([s], '|');
    JoinedStep([s], '&');
    assert [] + s == s;
    SplitIs(s, '|', [], [s]);
    SplitIs(s, '&', [], [s]);
  }

  lemma ResolveAlone(s: string, vals: Valuation)
    requires s != [] && Split(s, '|').Ok? && |Split(s, '|').value| == 1 && Split(s, '&').Ok? && |Split(s, '&').value| == 1
    ensures ResolveRec(s, vals) == ResolveOne(s, vals)
  {
    hide Split, ResolveOne, ResolveAll;
  }

  lemma {:induction false} ResolveChain(t: Text, vals: Valuation)
    requires WellFormed(t) && Known(t, vals) && t.Chain?
    ensures ResolveRec(Show(t), vals) == Ok(Value(t, vals))
    decreases t, 0
  {
    hide Resolve, Split, Quiet, ResolveAll, ResolveOne;
    var s, ws := Show(t), Shows(t.parts);
    ShowChain(t);
    ChainBegins(t);
    ChainSplits(t);
    forall k | 0 <= k < |ws|
      ensures |ws[k]| < |s| && Resolve(ws[k], vals) == Ok(Value(t.parts[k], vals))
    {
      PartShorter(t, k);
      ResolveShown(t.parts[k], vals);
    }
    ResolveAllIs(ws, vals, t.op == '&', |s|);
  }

  lemma {:induction false} JoinedLonger(ws: seq<string>, op: char, k: nat)
    requires k < |ws| && |ws| >= 2
    ensures |ws[k]| < |Joined(ws, op)|
  {
    if k > 0 && |ws| > 2 {
      JoinedLonger(ws[1..], op, k - 1);
    }
  }

  lemma PartShorter(t: Text, k: nat)
    requires t.Chain? && |t.parts| >= 2 && k < |t.parts|
    ensures |Show(t.parts[k])| < |Show(t)|
  {
    ShowChain(t);
    JoinedLonger(Shows(t.parts), t.op, k);
  }

  /** The scan for "|" splits a disjunction only; then the scan for "&" splits a conjunction. */
  lemma ChainSplits(t: Text)
    requires WellFormed(t) && t.Chain?
    ensures Show(t) != [] && Split(Show(t), t.op) == Ok(Shows(t.parts))
    ensures t.op == '&' ==> Split(Show(t), '|').Ok? && |Split(Show(t), '|').value| == 1
  {
    hide Quiet, Split;
    var ws := Shows(t.parts);
    ShowChain(t);
    ChainBegins(t);
    forall k | 0 <= k < |ws|
      ensures Quiet(ws[k], t.op) && (t.op == '&' ==> Quiet(ws[k], '|'))
    {
      assert PartOk(t.parts[k], t.op, k == 0);
      if t.op == '|' {
        PartQuiet(t.parts[k], k == 0);
      } else {
        ShownNested(t.parts[k]);
      }
    }
    SplitIs(Show(t), t.op, t.junk, ws);
    if t.op == '&' {
      var w := Joined(ws, '&');
      QuietJoined(ws, '&', '|');
      JoinedStep([w], '|');
      SplitIs(Show(t), '|', t.junk, [w]);
    }
  }

  // ---------------------------------------------------------------------------------------
  // Every text that resolves has such a structure.
  // ---------------------------------------------------------------------------------------

  ghost predicate AllNames(vals: Valuation) {
    forall n :: n in vals ==> NameOk(n)
  }

  lemma {:induction false} RunNoSpaces(f: string, op: char, i: nat, j: nat, st: State, u: State)
    requires i <= j <= |f| && StateOk(f, i, st) && Run(f, op, i, j, st) == Ok(u) && NoSpaces(f)
    requires forall k :: 0 <= k < |st.parts| ==> NoSpaces(st.parts[k])
    ensures forall k :: 0 <= k < |u.parts| ==> NoSpaces(u.parts[k])
    decreases j - i
  {
    if i < j {
      RunNoSpaces(f, op, i + 1, j, Step(f, op, i, st).value, u);
    }
  }

  lemma SplitNoSpaces(f: string, op: char)
    requires NoSpaces(f) && Split(f, op).Ok?
    ensures forall k :: 0 <= k < |Split(f, op).value| ==> NoSpaces(Split(f, op).value[k])
  {
    hide Run;
    var st := State(-1, 0, []);
    RunNoSpaces(f, op, 0, |f|, st, Run(f, op, 0, |f|, st).value);
  }

  lemma {:induction false} Parsed(s: string, vals: Valuation) returns (t: Text)
    requires AllNames(vals) && NoSpaces(s) && Resolve(s, vals).Ok?
    ensures WellFormed(t) && Known(t, vals) && Show(t) == s
    decreases |s|, 1, 0
  {
    hide Resolve, ResolveAll, ResolveOne, Split, WellFormed, NoSpaces, AllNames;
    DenseIs(s);
    DenseResolve(s, vals);
    var ors := Split(s, '|').value;
    if |ors| > 1 {
      t := ParsedChain(s, '|', ors, vals);
    } else {
      var ands := Split(s, '&').value;
      if |ands| > 1 {
        t := ParsedChain(s, '&', ands, vals);
      } else {
        t := ParsedUnit(s, vals);
      }
    }
  }

  lemma {:induction false} ParsedAll(ps: seq<string>, vals: Valuation, n: nat) returns (ts: seq<Text>)
    requires AllNames(vals) && forall k :: 0 <= k < |ps| ==> |ps[k]| < n && NoSpaces(ps[k]) && Resolve(ps[k], vals).Ok?
    ensures |ts| == |ps| && forall k :: 0 <= k < |ts| ==> WellFormed(ts[k]) && Known(ts[k], vals) && Show(ts[k]) == ps[k]
    decreases n, 0, |ps|
  {
    hide Resolve, WellFormed, Known, Show, NoSpaces, AllNames;
    if ps == [] {
      ts := [];
    } else {
      var t := Parsed(ps[0], vals);
      var rest := ParsedAll(ps[1..], vals, n);
      ts := [t] + rest;
    }
  }

  lemma {:induction false} ParsedChain(s: string, op: char, ws: seq<string>, vals: Valuation) returns (t: Text)
    requires AllNames(vals) && NoSpaces(s) && (op == '|' || op == '&') && s != []
    requires Split(s, op) == Ok(ws) && |ws| > 1 && ResolveAll(ws, vals, op == '&', |s|).Ok?
    requires op == '&' ==> Split(s, '|').Ok? && |Split(s, '|').value| == 1
    ensures WellFormed(t) && Known(t, vals) && Show(t) == s
    decreases |s|, 0, |ws| + 1
  {
    hide Resolve, ResolveAll, Split, NoSpaces, AllNames, Nested, Quiet, WellFormed, AllJunk;
    ResolveAllIs(ws, vals, op == '&', |s|);
    SplitNoSpaces(s, op);
    var ts := ParsedAll(ws, vals, |s|);
    assert Shows(ts) == ws;
    forall k | 0 <= k < |ws|
      ensures Nested(ws[k])
    {
      ShownNested(ts[k]);
    }
    var junk := SplitGives(s, op);
    t := Chain(junk, op, ts);
    ShowChain(t);
    forall k | 0 <= k < |ts|
      ensures PartOk(ts[k], op, k == 0)
    {
      if op == '|' {
        DisjunctOk(ts[k], k == 0, ws, k);
      } else {
        ConjunctOk(s, junk, ts[k], ws, k);
      }
    }
    ChainOk(t);
  }

  lemma ChainOk(t: Text)
    requires t.Chain? && (t.op == '&' || t.op == '|') && AllJunk(t.junk) && |t.parts| >= 2
    requires forall k :: 0 <= k < |t.parts| ==> WellFormed(t.parts[k])
    requires forall k :: 0 <= k < |t.parts| ==> PartOk(t.parts[k], t.op, k == 0)
    ensures WellFormed(t)
  {
  }

  lemma DisjunctOk(t: Text, first: bool, ws: seq<string>, k: nat)
    requires WellFormed(t) && k < |ws| && ws[k] == Show(t) && Quiet(Show(t), '|') && (first <==> k == 0)
    requires |ws| >= 2 && Begins(Joined(ws, '|'))
    ensures PartOk(t, '|', first)
  {
    hide Quiet;
    if t.Chain? {
      QuietMeans(t, '|', '&');
      JunkHead(t);
      JoinedHead(ws, '|');
    }
  }

  lemma JunkHead(t: Text)
    requires WellFormed(t) && t.Chain?
    ensures t.junk != [] ==> Show(t) != [] && Show(t)[0] == t.junk[0] && !Begins(Show(t))
  {
    ShowChain(t);
    if t.junk != [] {
      assert IsJunk(t.junk[0]);
    }
  }

  lemma JoinedHead(ws: seq<string>, op: char)
    requires |ws| >= 2
    ensures Joined(ws, op) != [] && Joined(ws, op)[0] == if ws[0] == [] then op else ws[0][0]
  {
  }

  /** A conjunct is quiet for both operators, because the text as a whole was for "|". */
  lemma ConjunctOk(s: string, junk: string, t: Text, ws: seq<string>, k: nat)
    requires NoSpaces(s) && s == junk + Joined(ws, '&') && |ws| >= 2 && k < |ws| && ws[k] == Show(t) && WellFormed(t)
    requires |junk| == StartOf(s, 0, 0).0 && (forall j :: 0 <= j < |ws| ==> Nested(ws[j])) && Quiet(Show(t), '&')
    requires Split(s, '|').Ok? && |Split(s, '|').value| == 1
    ensures PartOk(t, '&', k == 0)
  {
    hide Quiet, Nested, Split;
    NestedJoined(ws, '&');
    var w := Joined(ws, '&');
    WholeQuiet(s, junk, w);
    QuietPart(ws, '&', '|', k);
    if t.Chain? {
      QuietMeans(t, '|', '&');
      QuietMeans(t, '&', '|');
    }
  }

  /** A single piece of a nested text is all of it after the skipped characters, and quiet. */
  lemma WholeQuiet(s: string, junk: string, w: string)
    requires NoSpaces(s) && s == junk + w && |junk| == StartOf(s, 0, 0).0 && Nested(w)
    requires Split(s, '|').Ok? && |Split(s, '|').value| == 1
    ensures Quiet(w, '|')
  {
    hide Run, Nested, Quiet;
    RunToStart(s, '|', 0, 0);
    var i, d := StartOf(s, 0, 0).0, StartOf(s, 0, 0).1;
    var u := Run(s, '|', 0, |s|, State(-1, 0, [])).value;
    assert s[i..] == w;
    if i < |s| {
      var st := State(i, d, []);
      PartsGrow(s, '|', i, |s|, st, u);
      RunDepth(s, '|', i, |s|, st, u);
      NestedParity(w);
      assert s[i..|s|] == w && At(s, i, w);
      QuietPiece(s, '|', i, w, st, u);
    } else {
      EmptyWord('|');
      assert w == [];
    }
  }

  lemma {:induction false} QuietPart(ws: seq<string>, op: char, other: char, k: nat)
    requires k < |ws| && ((op == '&' && other == '|') || (op == '|' && other == '&'))
    requires (forall j :: 0 <= j < |ws| ==> Nested(ws[j])) && Quiet(Joined(ws, op), other)
    ensures Quiet(ws[k], other)
  {
    hide Nested, Quiet;
    JoinedStep(ws, op);
    if |ws| >= 2 {
      OneChar(op, other);
      NestedConcat(ws[0], [op]);
      NestedJoined(ws[1..], op);
      QuietConcat(ws[0], [op], other);
      QuietConcat(ws[0] + [op], Joined(ws[1..], op), other);
      if k > 0 {
        QuietPart(ws[1..], op, other, k - 1);
      }
    }
  }

  lemma {:induction false} ParsedUnit(s: string, vals: Valuation) returns (t: Text)
    requires AllNames(vals) && NoSpaces(s) && s != [] && ResolveOne(s, vals).Ok?
    requires Split(s, '|').Ok? && |Split(s, '|').value| == 1 && Split(s, '&').Ok? && |Split(s, '&').value| == 1
    ensures WellFormed(t) && Known(t, vals) && Show(t) == s
    decreases |s|, 0, 0
  {
    hide Resolve, Split;
    if s[0] == '!' {
      var x := Parsed(s[1..], vals);
      AfterSign(s, x, '|');
      AfterSign(s, x, '&');
      t := Not(x);
      NotChain(x);
      assert s == "!" + s[1..];
    } else if s[0] == '(' {
      var x := Parsed(s[1..|s| - 1], vals);
      Closing(s, x);
      t := Group(x);
      assert s == "(" + s[1..|s| - 1] + ")";
    } else if s == "1" || s == "0" {
      t := Const(s == "1");
    } else {
      t := Var(s);
    }
  }

  lemma NotChain(x: Text)
    requires WellFormed(x) && Quiet(Show(x), '|') && Quiet(Show(x), '&')
    ensures !x.Chain?
  {
    hide Quiet;
    if x.Chain? {
      QuietMeans(x, '|', '&');
      QuietMeans(x, '&', '|');
    }
  }

  /** After a sign that begins the only piece, nothing may split or be skipped. */
  lemma AfterSign(s: string, x: Text, op: char)
    requires (op == '&' || op == '|') && s != [] && s[0] == '!' && WellFormed(x) && Show(x) == s[1..]
    requires Split(s, op).Ok? && |Split(s, op).value| == 1
    ensures Quiet(Show(x), op)
  {
    hide Run, Quiet, Nested, Split;
    var st, t := State(-1, 0, []), State(0, 0, []);
    var u := SplitState(s, op);
    assert Step(s, op, 0, st) == Ok(t);
    RunAfter(s, op, 0, st, t, u);
    PartsGrow(s, op, 1, |s|, t, u);
    ShownNested(x);
    assert u.parts == [];
    assert At(s, 1, s[1..]) && 1 + |s[1..]| == |s|;
    QuietPiece(s, op, 1, s[1..], t, u);
  }

  /** An opening parenthesis in front of a nested text is closed by the last character. */
  lemma Closing(s: string, x: Text)
    requires |s| >= 2 && s[0] == '(' && WellFormed(x) && Show(x) == s[1..|s| - 1] && Split(s, '|').Ok?
    ensures s[|s| - 1] == ')'
  {
    hide Run, Nested, Show, Parity;
    var st, c, w := State(-1, 0, []), s[|s| - 1], s[1..|s| - 1];
    var u := Run(s, '|', 0, |s|, st).value;
    RunDepth(s, '|', 0, |s|, st, u);
    ShownNested(x);
    NestedParity(w);
    assert s[0..|s|] == s == "(" + w + [c];
    OpenParity(w, c);
  }

  lemma OpenParity(w: string, c: char)
    ensures Parity("(" + w + [c]) == 1 + Parity(w) + Nesting(c)
  {
    ParityConcat("(" + w, [c]);
    ParityConcat("(", w);
    assert Parity("(") == 1 && Parity([c]) == Nesting(c);
  }

  /**
   Over a valuation of names, a text resolves to `b` exactly if, without its spaces, it is the text of an
   accepted structure over known names whose value is `b`.
   */
  lemma AcceptedIff(text: string, vals: Valuation, b: bool)
    requires AllNames(vals)
    ensures Resolve(text, vals) == Ok(b) <==>
              exists t :: WellFormed(t) && Known(t, vals) && Show(t) == Dense(text) && Value(t, vals) == b
  {
    hide ResolveRec, WellFormed, Show, AllNames;
    var s := Dense(text);
    DenseHasNone(text);
    DenseIs(s);
    assert Resolve(text, vals) == Resolve(s, vals);
    if Resolve(s, vals).Ok? {
      var t := Parsed(s, vals);
      ResolveShown(t, vals);
    }
    if t :| WellFormed(t) && Known(t, vals) && Show(t) == s && Value(t, vals) == b {
      ResolveShown(t, vals);
    }
  }

  /** Not only operators are skipped, and not only in front of the text. */
  lemma SkippedTexts(vals: Valuation)
    requires "a" in vals && "b" in vals && "c" in vals
    ensures Resolve("$a|b", vals) == Ok(vals["a"] || vals["b"])
    ensures Resolve("a|&b&c", vals) == Ok(vals["a"] || (vals["b"] && vals["c"]))
  {
    hide Resolve;
    var a, b, c := Var("a"), Var("b"), Var("c");
    var t, u := Chain("$", '|', [a, b]), Chain("&", '&', [b, c]);
    var v := Chain("", '|', [a, u]);
    Pair("$", '|', a, b, vals);
    Pair("&", '&', b, c, vals);
    Pair("", '|', a, u, vals);
    assert Show(t) == "$" + "a" + ['|'] + "b" == "$a|b";
    assert Show(u) == "&" + "b" + ['&'] + "c" == "&b&c";
    assert Show(v) == "" + "a" + ['|'] + "&b&c" == "a|&b&c";
    ResolveShown(t, vals);
    ResolveShown(v, vals);
  }

  lemma Pair(junk: string, op: char, x: Text, y: Text, vals: Valuation)
    requires (op == '&' || op == '|') && AllJunk(junk) && WellFormed(x) && WellFormed(y) && Known(x, vals) && Known(y, vals)
    requires PartOk(x, op, true) && PartOk(y, op, false)
    ensures var t := Chain(junk, op, [x, y]);
            && WellFormed(t) && Known(t, vals) && Show(t) == junk + Show(x) + [op] + Show(y)
            && Value(t, vals) == if op == '&' then Value(x, vals) && Value(y, vals) else Value(x, vals) || Value(y, vals)
  {
    var t := Chain(junk, op, [x, y]);
    ShowChain(t);
    var a, b := Show(x), Show(y);
    assert Shows(t.parts) == [a, b] && [a, b][1..] == [b];
    assert Joined([a, b], op) == a + [op] + b;
    assert junk + (a + [op] + b) == junk + a + [op] + b;
    assert t.parts[0] == x && t.parts[1] == y;
  }

  // ---------------------------------------------------------------------------------------
  // Every formula has a text.
  // ---------------------------------------------------------------------------------------

  datatype Formula =
    | Lit(value: bool)
    | Name(name: string)
    | Neg(arg: Formula)
    | Conj(left: Formula, right: Formula)
    | Disj(left: Formula, right: Formula)

  ghost predicate NamesIn(e: Formula, vals: Valuation) {
    match e
    case Lit(_) => true
    case Name(n) => n in vals
    case Neg(x) => NamesIn(x, vals)
    case Conj(l, r) => NamesIn(l, vals) && NamesIn(r, vals)
    case Disj(l, r) => NamesIn(l, vals) && NamesIn(r, vals)
  }

  ghost function Truth(e: Formula, vals: Valuation): bool
    requires NamesIn(e, vals)
  {
    match e
    case Lit(b) => b
    case Name(n) => vals[n]
    case Neg(x) => !Truth(x, vals)
    case Conj(l, r) => Truth(l, vals) && Truth(r, vals)
    case Disj(l, r) => Truth(l, vals) || Truth(r, vals)
  }

  /** Parentheses around a chain. */
  function Unit(t: Text): Text {
    if t.Chain? then Group(t) else t
  }

  /** The parts of a chain that may be written without parentheses of its own. */
  function PartsOf(t: Text, op: char): seq<Text> {
    if t.Chain? && t.op == op && t.junk == [] then t.parts
    else if t.Chain? && (op == '&' || t.op == '|') then [Group(t)]
    else [t]
  }

  /** The text of a formula, with parentheses only where precedence needs them. */
  function TextOf(e: Formula): Text {
    match e
    case Lit(b) => Const(b)
    case Name(n) => Var(n)
    case Neg(x) => Not(Unit(TextOf(x)))
    case Conj(l, r) => Chain("", '&', PartsOf(TextOf(l), '&') + PartsOf(TextOf(r), '&'))
    case Disj(l, r) => Chain("", '|', PartsOf(TextOf(l), '|') + PartsOf(TextOf(r), '|'))
  }

  ghost predicate PlainText(t: Text) {
    t.Chain? ==> t.junk == []
  }

  lemma PartsOfOk(t: Text, op: char, vals: Valuation)
    requires WellFormed(t) && Known(t, vals) && PlainText(t) && (op == '&' || op == '|')
    ensures PartsOf(t, op) != []
    ensures forall k :: 0 <= k < |PartsOf(t, op)| ==> WellFormed(PartsOf(t, op)[k]) && Known(PartsOf(t, op)[k], vals)
    ensures forall k :: 0 <= k < |PartsOf(t, op)| ==> PartOk(PartsOf(t, op)[k], op, false)
    ensures PartOk(PartsOf(t, op)[0], op, true)
    ensures Value(t, vals) == if op == '&' then forall k :: 0 <= k < |PartsOf(t, op)| ==> Value(PartsOf(t, op)[k], vals)
                              else exists k :: 0 <= k < |PartsOf(t, op)| && Value(PartsOf(t, op)[k], vals)
  {
    var ps := PartsOf(t, op);
    if t.Chain? && t.op == op {
      assert forall k :: 0 <= k < |ps| ==> PartOk(ps[k], op, k == 0);
    } else {
      assert |ps| == 1 && Value(ps[0], vals) == Value(t, vals);
    }
  }

  lemma {:induction false} TextKeepsMeaning(e: Formula, vals: Valuation)
    requires AllNames(vals) && NamesIn(e, vals)
    ensures WellFormed(TextOf(e)) && Known(TextOf(e), vals) && PlainText(TextOf(e))
    ensures Value(TextOf(e), vals) == Truth(e, vals)
  {
    hide PartsOf;
    match e
    case Lit(_) =>
    case Name(_) =>
    case Neg(x) => TextKeepsMeaning(x, vals);
    case Conj(l, r) =>
      TextKeepsMeaning(l, vals);
      TextKeepsMeaning(r, vals);
      PartsOfOk(TextOf(l), '&', vals);
      PartsOfOk(TextOf(r), '&', vals);
      ChainMeans(TextOf(e), PartsOf(TextOf(l), '&'), PartsOf(TextOf(r), '&'), vals);
    case Disj(l, r) =>
      TextKeepsMeaning(l, vals);
      TextKeepsMeaning(r, vals);
      PartsOfOk(TextOf(l), '|', vals);
      PartsOfOk(TextOf(r), '|', vals);
      ChainMeans(TextOf(e), PartsOf(TextOf(l), '|'), PartsOf(TextOf(r), '|'), vals);
  }

  ghost predicate Holds(ps: seq<Text>, op: char, vals: Valuation)
    requires forall k :: 0 <= k < |ps| ==> Known(ps[k], vals)
  {
    if op == '&' then forall k :: 0 <= k < |ps| ==> Value(ps[k], vals)
    else exists k :: 0 <= k < |ps| && Value(ps[k], vals)
  }

  lemma ChainMeans(t: Text, a: seq<Text>, b: seq<Text>, vals: Valuation)
    requires t.Chain? && t.parts == a + b && t.junk == [] && (t.op == '&' || t.op == '|') && a != [] && b != []
    requires forall k :: 0 <= k < |a| ==> WellFormed(a[k]) && Known(a[k], vals) && PartOk(a[k], t.op, false)
    requires forall k :: 0 <= k < |b| ==> WellFormed(b[k]) && Known(b[k], vals) && PartOk(b[k], t.op, false)
    requires PartOk(a[0], t.op, true)
    ensures WellFormed(t) && Known(t, vals)
    ensures Value(t, vals) == if t.op == '&' then Holds(a, '&', vals) && Holds(b, '&', vals)
                              else Holds(a, '|', vals) || Holds(b, '|', vals)
  {
    hide WellFormed, Known, Value, PartOk;
    var ps := t.parts;
    assert forall k :: 0 <= k < |a| ==> ps[k] == a[k];
    assert forall k :: 0 <= k < |b| ==> ps[|a| + k] == b[k];
    assert forall k :: 0 <= k < |ps| ==> ps[k] == if k < |a| then a[k] else b[k - |a|];
    ChainOk(t);
    ChainValue(t, vals);
  }

  lemma ChainValue(t: Text, vals: Valuation)
    requires t.Chain? && (t.op == '&' || t.op == '|') && forall k :: 0 <= k < |t.parts| ==> Known(t.parts[k], vals)
    ensures Known(t, vals) && Value(t, vals) == Holds(t.parts, t.op, vals)
  {
  }

  /** For every formula over the names of the valuation, its text, however spaced, resolves to its truth value. */
  lemma FormulaResolves(e: Formula, text: string, vals: Valuation)
    requires AllNames(vals) && NamesIn(e, vals) && Dense(text) == Show(TextOf(e))
    ensures Resolve(text, vals) == Ok(Truth(e, vals))
  {
    hide Resolve, Show;
    TextKeepsMeaning(e, vals);
    AcceptedIff(text, vals, Truth(e, vals));
  }
}
