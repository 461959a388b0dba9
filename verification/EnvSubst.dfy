/** Environment-variable expansion of configuration text (internal/config/envsubst.go).

    Strings are sequences of runes.  The variable lookup and the letter classes are parameters, so
    every statement holds for all of them, self-referential variables included.  Error values carry
    their kind; offsets and wrapping texts are not modelled. */
module EnvSubst {
  import opened Prelude

  datatype Error = DepthExceeded | Unterminated | InvalidName

  datatype Expansion = Ok(text: string) | Err(error: Error)

  /** `lookup(name)` is the pair an EnvLookupFunc returns: the value and whether it is set. */
  datatype Env = Env(lookup: string -> (string, bool), isLetter: char -> bool, isDigit: char -> bool)

  const MAX_DEPTH: nat := 32

  // ---------------------------------------------------------------- the two brace scanners

  predicate OpensBrace(s: string, i: nat) {
    i + 1 < |s| && s[i] == '$' && s[i + 1] == '{'
  }

  /** The first scanner: the position of the '}' that closes the expression open at nesting `depth`. */
  function ClosingBrace(s: string, i: nat, depth: nat): (r: Option<nat>)
    ensures r.Some? ==> i <= r.value < |s| && s[r.value] == '}'
    decreases |s| - i
  {
    if i >= |s| then None
    else if OpensBrace(s, i) then ClosingBrace(s, i + 2, depth + 1)
    else if s[i] == '}' then
      if depth <= 1 then Some(i) else ClosingBrace(s, i + 1, depth - 1)
    else ClosingBrace(s, i + 1, depth)
  }

  predicate DefaultMark(e: string, i: nat) {
    i + 1 < |e| && e[i] == ':' && e[i + 1] == '-'
  }

  /** The second scanner: the position of the first ":-" outside nested braces.  A '}' at nesting 0
      leaves the nesting at 0. */
  function TopLevelDefault(e: string, i: nat, depth: nat): (r: Option<nat>)
    ensures r.Some? ==> DefaultMark(e, r.value)
    decreases |e| - i
  {
    if i >= |e| then None
    else if OpensBrace(e, i) then TopLevelDefault(e, i + 2, depth + 1)
    else if e[i] == '}' then TopLevelDefault(e, i + 1, if depth > 0 then depth - 1 else depth)
    else if depth == 0 && DefaultMark(e, i) then Some(i)
    else TopLevelDefault(e, i + 1, depth)
  }

  // ---------------------------------------------------------------- expansion

  predicate ValidName(env: Env, name: string) {
    && name != ""
    && (env.isLetter(name[0]) || name[0] == '_')
    && forall i :: 1 <= i < |name| ==> env.isLetter(name[i]) || env.isDigit(name[i]) || name[i] == '_'
  }

  function Fuel(depth: nat): nat {
    if depth <= MAX_DEPTH + 1 then MAX_DEPTH + 2 - depth else 0
  }

  function Prepend(prefix: string, e: Expansion): Expansion {
    if e.Ok? then Ok(prefix + e.text) else e
  }

  lemma PrependTwice(p: string, q: string, e: Expansion)
    ensures Prepend(p, Prepend(q, e)) == Prepend(p + q, e)
  {
    assert e.Ok? ==> p + (q + e.text) == (p + q) + e.text;
  }

  /** What the expander finds at a position: text it copies (an escape counts as the '$' it stands
      for), an expression between braces, or an "${" that is never closed. */
  datatype Token = Text(piece: string, next: nat) | Expression(from: nat, to: nat) | Unclosed

  function TokenAt(s: string, i: nat): (t: Token)
    requires i < |s|
    ensures t.Text? ==> i < t.next <= |s|
    ensures t.Expression? ==> i + 2 == t.from <= t.to < |s|
  {
    if i + 1 < |s| && s[i] in {'\\', '$'} && s[i + 1] == '$' then Text("$", i + 2)
    else if OpensBrace(s, i) then
      (match ClosingBrace(s, i + 2, 1)
       case None => Unclosed
       case Some(end) => Expression(i + 2, end))
    else Text([s[i]], i + 1)
  }

  /** The expansion of what is left of `s` from position i on, given what expressions evaluate to. */
  function ExpandWith(eval: string -> Expansion, s: string, i: nat): Expansion
    decreases |s| - i
  {
    if i >= |s| then Ok("")
    else
      match TokenAt(s, i)
      case Text(piece, next) => Prepend(piece, ExpandWith(eval, s, next))
      case Unclosed => Err(Unterminated)
      case Expression(from, to) =>
        var val := eval(s[from..to]);
        if val.Err? then val else Prepend(val.text, ExpandWith(eval, s, to + 1))
  }

  /** One token of an expansion. */
  lemma ExpandStep(eval: string -> Expansion, s: string, i: nat)
    ensures ExpandWith(eval, s, i) ==
            if i >= |s| then Ok("")
            else match TokenAt(s, i)
                 case Text(piece, next) => Prepend(piece, ExpandWith(eval, s, next))
                 case Unclosed => Err(Unterminated)
                 case Expression(from, to) =>
                   var val := eval(s[from..to]);
                   if val.Err? then val else Prepend(val.text, ExpandWith(eval, s, to + 1))
  {
  }

  /** The expansion of `s` at recursion depth `depth`. */
  function Expand(env: Env, s: string, depth: nat): Expansion
    decreases Fuel(depth), 1
  {
    if depth > MAX_DEPTH then Err(DepthExceeded) else ExpandWith(Evaluator(env, depth), s, 0)
  }

  function Evaluator(env: Env, depth: nat): string -> Expansion
    requires depth <= MAX_DEPTH
    decreases Fuel(depth), 0
  {
    e => Evaluate(env, e, depth + 1)
  }

  /** The value of the expression inside one pair of braces. */
  function Evaluate(env: Env, e: string, depth: nat): Expansion
    decreases Fuel(depth), 2
  {
    var mark := TopLevelDefault(e, 0, 0);
    var name := Trim(if mark.Some? then e[..mark.value] else e);
    if !ValidName(env, name) then Err(InvalidName)
    else
      var (val, isSet) := env.lookup(name);
      if isSet && val != "" then Expand(env, val, depth + 1)
      else if mark.Some? then Expand(env, e[mark.value + 2..], depth)
      else Ok(val)
  }

  /** expandEnvRecursive, with its index loops and its string builder. */
  method ExpandEnvRecursive(env: Env, s: string, depth: nat) returns (r: Expansion)
    ensures r == Expand(env, s, depth)
    decreases Fuel(depth), 1
  {
    if depth > MAX_DEPTH {
      return Err(DepthExceeded);
    }
    hide ClosingBrace, ExpandWith, Prepend, Evaluator, TokenAt;
    ghost var eval, whole := Evaluator(env, depth), Expand(env, s, depth);
    var sb := "";
    var i := 0;
    PrependEnds("", ExpandWith(eval, s, 0));
    while i < |s|
      invariant i <= |s|
      invariant whole == Prepend(sb, ExpandWith(eval, s, i))
    {
      TokenCases(s, i);
      if s[i] == '\\' && i + 1 < |s| && s[i + 1] == '$' {
        TextRead(eval, s, i, sb);
        sb, i := sb + "$", i + 2;
        continue;
      }
      if s[i] == '$' {
        if i + 1 < |s| && s[i + 1] == '$' {
          TextRead(eval, s, i, sb);
          sb, i := sb + "$", i + 2;
          continue;
        }
        if i + 1 < |s| && s[i + 1] == '{' {
          var exprStart := i + 2;
          ghost var at := i;
          var exprEnd;
          exprEnd, i := ScanExpression(s, exprStart);
          ExpressionRead(eval, s, at, sb);
          if exprEnd == -1 {
            return Err(Unterminated);
          }
          var val := EvaluateExpression(env, s[exprStart..exprEnd], depth + 1);
          EvaluatorEvaluates(env, depth, s[exprStart..exprEnd]);
          if val.Err? {
            return val;
          }
          sb := sb + val.text;
          continue;
        }
        TextRead(eval, s, i, sb);
        sb, i := sb + "$", i + 1;
        continue;
      }
      TextRead(eval, s, i, sb);
      sb, i := sb + [s[i]], i + 1;
    }
    ExpandStep(eval, s, i);
    PrependEnds(sb, Ok(""));
    r := Ok(sb);
  }

  /** The tokens, by the characters they start with. */
  lemma TokenCases(s: string, i: nat)
    requires i < |s|
    ensures if i + 1 < |s| && s[i] in {'\\', '$'} && s[i + 1] == '$' then TokenAt(s, i) == Text("$", i + 2)
            else if i + 1 < |s| && s[i] == '$' && s[i + 1] == '{' then
              TokenAt(s, i) == match ClosingBrace(s, i + 2, 1) case None => Unclosed case Some(end) => Expression(i + 2, end)
            else TokenAt(s, i) == Text([s[i]], i + 1)
  {
    hide ClosingBrace;
  }

  lemma TextRead(eval: string -> Expansion, s: string, i: nat, sb: string)
    requires i < |s| && TokenAt(s, i).Text?
    ensures var t := TokenAt(s, i);
            Prepend(sb, ExpandWith(eval, s, i)) == Prepend(sb + t.piece, ExpandWith(eval, s, t.next))
  {
    hide TokenAt, Prepend, ExpandWith;
    ExpandStep(eval, s, i);
    PrependTwice(sb, TokenAt(s, i).piece, ExpandWith(eval, s, TokenAt(s, i).next));
  }

  lemma ExpressionRead(eval: string -> Expansion, s: string, i: nat, sb: string)
    requires i < |s| && !TokenAt(s, i).Text?
    ensures var whole := Prepend(sb, ExpandWith(eval, s, i));
            match TokenAt(s, i)
            case Unclosed => whole == Err(Unterminated)
            case Expression(from, to) =>
              var val := eval(s[from..to]);
              whole == if val.Err? then val else Prepend(sb + val.text, ExpandWith(eval, s, to + 1))
  {
    hide TokenAt, Prepend, ExpandWith;
    ExpandStep(eval, s, i);
    match TokenAt(s, i) {
      case Unclosed => PrependEnds(sb, Err(Unterminated));
      case Expression(from, to) =>
        var val := eval(s[from..to]);
        if val.Err? {
          PrependEnds(sb, val);
        } else {
          PrependTwice(sb, val.text, ExpandWith(eval, s, to + 1));
        }
    }
  }

  lemma PrependEnds(p: string, e: Expansion)
    ensures e.Err? ==> Prepend(p, e) == e
    ensures Prepend(p, Ok("")) == Ok(p) && Prepend("", e) == e
  {
  }

  lemma EvaluatorEvaluates(env: Env, depth: nat, expr: string)
    requires depth <= MAX_DEPTH
    ensures Evaluator(env, depth)(expr) == Evaluate(env, expr, depth + 1)
  {
  }

  /** The brace-matching loop: the position of the closing '}', or -1, and where to read on. */
  method ScanExpression(s: string, exprStart: nat) returns (exprEnd: int, i: nat)
    requires exprStart <= |s|
    ensures match ClosingBrace(s, exprStart, 1)
            case None => exprEnd == -1
            case Some(end) => exprEnd == end && i == end + 1
  {
    var exprDepth := 1;
    exprEnd, i := -1, exprStart;
    while i < |s|
      invariant exprStart <= i <= |s| && exprDepth > 0
      invariant ClosingBrace(s, exprStart, 1) == ClosingBrace(s, i, exprDepth)
    {
      if s[i] == '$' && i + 1 < |s| && s[i + 1] == '{' {
        exprDepth := exprDepth + 1;
        i := i + 2;
        continue;
      }
      if s[i] == '}' {
        exprDepth := exprDepth - 1;
        if exprDepth == 0 {
          return i, i + 1;
        }
      }
      i := i + 1;
    }
  }

  /** evaluateExpression, with its scan for the top-level ":-". */
  method EvaluateExpression(env: Env, e: string, depth: nat) returns (r: Expansion)
    ensures r == Evaluate(env, e, depth)
    decreases Fuel(depth), 2
  {
    var colonIdx, braceDepth, i := -1, 0, 0;
    while i < |e|
      invariant 0 <= i && 0 <= braceDepth
      invariant colonIdx == -1 && TopLevelDefault(e, 0, 0) == TopLevelDefault(e, i, braceDepth)
    {
      if e[i] == '$' && i + 1 < |e| && e[i + 1] == '{' {
        braceDepth := braceDepth + 1;
        i := i + 2;
        continue;
      }
      if e[i] == '}' {
        if braceDepth > 0 {
          braceDepth := braceDepth - 1;
        }
        i := i + 1;
        continue;
      }
      if braceDepth == 0 && e[i] == ':' && i + 1 < |e| && e[i + 1] == '-' {
        colonIdx := i;
        break;
      }
      i := i + 1;
    }
    if colonIdx != -1 {
      var varName := Trim(e[..colonIdx]);
      if !ValidName(env, varName) {
        return Err(InvalidName);
      }
      var (val, isSet) := env.lookup(varName);
      if isSet && val != "" {
        r := ExpandEnvRecursive(env, val, depth + 1);
        return;
      }
      r := ExpandEnvRecursive(env, e[colonIdx + 2..], depth);
      return;
    }
    var varName := Trim(e);
    if !ValidName(env, varName) {
      return Err(InvalidName);
    }
    var (val, isSet) := env.lookup(varName);
    if isSet && val != "" {
      r := ExpandEnvRecursive(env, val, depth + 1);
      return;
    }
    r := Ok(val);
  }

  // ---------------------------------------------------------------- fuel monotonicity

  /** A string that expands to r at some recursion depth expands to the same r at every smaller
      depth: the depth bound only ever turns a result into a failure. */
  lemma {:induction false} ExpansionIsFuelMonotone(env: Env, s: string, deep: nat, shallow: nat)
    requires shallow <= deep && Expand(env, s, deep).Ok?
    ensures Expand(env, s, shallow) == Expand(env, s, deep)
    decreases Fuel(deep), 0
  {
    forall e | Evaluator(env, deep)(e).Ok? ensures Evaluator(env, shallow)(e) == Evaluator(env, deep)(e) {
      EvaluationIsFuelMonotone(env, e, deep + 1, shallow + 1);
    }
    MoreDefinedEvaluation(Evaluator(env, deep), Evaluator(env, shallow), s, 0);
  }

  lemma {:induction false} EvaluationIsFuelMonotone(env: Env, e: string, deep: nat, shallow: nat)
    requires shallow <= deep && Evaluate(env, e, deep).Ok?
    ensures Evaluate(env, e, shallow) == Evaluate(env, e, deep)
    decreases Fuel(deep), 1
  {
    var mark := TopLevelDefault(e, 0, 0);
    var name := Trim(if mark.Some? then e[..mark.value] else e);
    var (val, isSet) := env.lookup(name);
    if isSet && val != "" {
      assert deep + 1 <= MAX_DEPTH;
      ExpansionIsFuelMonotone(env, val, deep + 1, shallow + 1);
    } else if mark.Some? {
      ExpansionIsFuelMonotone(env, e[mark.value + 2..], deep, shallow);
    }
  }

  /** A text keeps its expansion when expressions that have a value keep it. */
  lemma {:induction false} MoreDefinedEvaluation(eval: string -> Expansion, more: string -> Expansion, s: string, i: nat)
    requires forall e :: eval(e).Ok? ==> more(e) == eval(e)
    requires ExpandWith(eval, s, i).Ok?
    ensures ExpandWith(more, s, i) == ExpandWith(eval, s, i)
    decreases |s| - i
  {
    if i < |s| {
      match TokenAt(s, i) {
        case Text(_, next) => MoreDefinedEvaluation(eval, more, s, next);
        case Unclosed =>
        case Expression(_, to) => MoreDefinedEvaluation(eval, more, s, to + 1);
      }
    }
  }

  // ---------------------------------------------------------------- homomorphism

  /** The scanner only looks at what it passes over, so appended text does not move a closing brace. */
  lemma {:induction false} ClosingBraceIsLocal(s: string, t: string, i: nat, depth: nat)
    requires ClosingBrace(s, i, depth).Some?
    ensures ClosingBrace(s + t, i, depth) == ClosingBrace(s, i, depth)
    decreases |s| - i
  {
    var st := s + t;
    assert forall k :: 0 <= k < |s| ==> st[k] == s[k];
    if OpensBrace(s, i) {
      ClosingBraceIsLocal(s, t, i + 2, depth + 1);
    } else if s[i] == '}' {
      if depth > 1 {
        ClosingBraceIsLocal(s, t, i + 1, depth - 1);
      }
    } else {
      assert i + 1 < |s|;
      ClosingBraceIsLocal(s, t, i + 1, depth);
    }
  }

  lemma {:induction false} ClosingBraceShifts(s: string, from: nat, i: nat, depth: nat)
    requires from <= |s|
    ensures ClosingBrace(s, from + i, depth) ==
            match ClosingBrace(s[from..], i, depth) case None => None case Some(e) => Some(from + e)
    decreases |s| - i
  {
    if from + i < |s| {
      assert OpensBrace(s, from + i) == OpensBrace(s[from..], i);
      if OpensBrace(s, from + i) {
        ClosingBraceShifts(s, from, i + 2, depth + 1);
      } else if s[from + i] == '}' {
        if depth > 1 {
          ClosingBraceShifts(s, from, i + 1, depth - 1);
        }
      } else {
        ClosingBraceShifts(s, from, i + 1, depth);
      }
    }
  }

  function Shift(t: Token, offset: nat): Token {
    match t
    case Text(piece, next) => Text(piece, offset + next)
    case Expression(from, to) => Expression(offset + from, offset + to)
    case Unclosed => Unclosed
  }

  lemma TokenShifts(s: string, from: nat, i: nat)
    requires from + i < |s|
    ensures TokenAt(s, from + i) == Shift(TokenAt(s[from..], i), from)
  {
    ClosingBraceShifts(s, from, i + 2, 1);
  }

  /** Reading on from a position is reading the rest of the text on its own. */
  lemma {:induction false} ExpansionShifts(eval: string -> Expansion, s: string, from: nat, i: nat)
    requires from + i <= |s|
    ensures ExpandWith(eval, s, from + i) == ExpandWith(eval, s[from..], i)
    decreases |s| - i
  {
    hide ExpandWith, TokenAt, Prepend;
    ExpandStep(eval, s, from + i);
    ExpandStep(eval, s[from..], i);
    if from + i < |s| {
      TokenShifts(s, from, i);
      match TokenAt(s[from..], i) {
        case Text(_, next) => ExpansionShifts(eval, s, from, next);
        case Unclosed =>
        case Expression(a, b) =>
          assert s[from + a..from + b] == s[from..][a..b];
          ExpansionShifts(eval, s, from, b + 1);
      }
    }
  }

  /** The last character of `s`, read alone: a '$' or '\\' there is one that appended text could
      complete to an escape or to "${". */
  predicate LoneAt(s: string, i: nat) {
    i + 1 == |s| && s[i] in {'\\', '$'}
  }

  /** Reading `s` token by token from i ends in a lone '$' or '\\'. */
  predicate Dangling(s: string, i: nat)
    decreases |s| - i
  {
    i < |s| &&
    (LoneAt(s, i) ||
     match TokenAt(s, i)
     case Text(_, next) => Dangling(s, next)
     case Unclosed => false
     case Expression(_, to) => Dangling(s, to + 1))
  }

  /** Any other token is read the same whatever follows. */
  lemma TokenIsLocal(s: string, t: string, i: nat)
    requires i < |s| && !LoneAt(s, i) && TokenAt(s, i) != Unclosed
    ensures TokenAt(s + t, i) == TokenAt(s, i)
  {
    assert (s + t)[i] == s[i];
    assert i + 1 < |s| ==> (s + t)[i + 1] == s[i + 1];
    if OpensBrace(s, i) && s[i + 1] != '$' {
      ClosingBraceIsLocal(s, t, i + 2, 1);
    }
  }

  /** Expanding s + t reads s as before and then reads t. */
  lemma {:induction false} ExpansionSplits(eval: string -> Expansion, s: string, t: string, i: nat)
    requires i <= |s|
    requires ExpandWith(eval, s, i).Ok? && !Dangling(s, i)
    ensures ExpandWith(eval, s + t, i) == Prepend(ExpandWith(eval, s, i).text, ExpandWith(eval, t, 0))
    decreases |s| - i
  {
    hide ExpandWith, TokenAt;
    var rest := ExpandWith(eval, t, 0);
    ExpandStep(eval, s, i);
    if i == |s| {
      ExpansionShifts(eval, s + t, |s|, 0);
      assert (s + t)[|s|..] == t;
      PrependEnds("", rest);
    } else {
      ExpandStep(eval, s + t, i);
      TokenIsLocal(s, t, i);
      match TokenAt(s, i) {
        case Text(piece, next) =>
          ExpansionSplits(eval, s, t, next);
          PrependTwice(piece, ExpandWith(eval, s, next).text, rest);
        case Expression(from, to) =>
          assert (s + t)[from..to] == s[from..to];
          ExpansionSplits(eval, s, t, to + 1);
          PrependTwice(eval(s[from..to]).text, ExpandWith(eval, s, to + 1).text, rest);
      }
    }
  }

  /** A dangling '$' or '\\' swallows a '$' that is appended to it. */
  lemma {:induction false} DanglingSwallows(eval: string -> Expansion, s: string, i: nat)
    requires i <= |s|
    requires ExpandWith(eval, s, i).Ok? && Dangling(s, i)
    ensures ExpandWith(eval, s + "$", i).Ok?
    ensures |ExpandWith(eval, s + "$", i).text| == |ExpandWith(eval, s, i).text|
    decreases |s| - i
  {
    if LoneAt(s, i) {
      assert TokenAt(s + "$", i) == Text("$", i + 2);
    } else {
      TokenIsLocal(s, "$", i);
      match TokenAt(s, i) {
        case Text(_, next) => DanglingSwallows(eval, s, next);
        case Expression(from, to) =>
          assert (s + "$")[from..to] == s[from..to];
          DanglingSwallows(eval, s, to + 1);
      }
    }
  }

  /** Expansion is a homomorphism at s exactly when s does not end in a dangling '$' or '\\': then
      expanding s + t gives expand(s) + expand(t) for every t, and fails, in the same way, exactly
      when t does. */
  lemma ExpansionIsHomomorphic(env: Env, s: string, depth: nat)
    requires Expand(env, s, depth).Ok?
    ensures !Dangling(s, 0) <==>
            forall t :: Expand(env, s + t, depth) == Prepend(Expand(env, s, depth).text, Expand(env, t, depth))
  {
    var eval := Evaluator(env, depth);
    if Dangling(s, 0) {
      DanglingSwallows(eval, s, 0);
      assert ExpandWith(eval, "$", 1) == Ok("");
      assert Expand(env, "$", depth) == Ok("$");
      assert Expand(env, s + "$", depth) != Prepend(Expand(env, s, depth).text, Expand(env, "$", depth));
    } else {
      forall t ensures Expand(env, s + t, depth) == Prepend(Expand(env, s, depth).text, Expand(env, t, depth)) {
        ExpansionSplits(eval, s, t, 0);
      }
    }
  }

  /** In particular it is enough that s does not end in either character. */
  lemma {:induction false} PlainEndIsNotDangling(s: string, i: nat)
    requires s == "" || s[|s| - 1] !in {'\\', '$'}
    ensures !Dangling(s, i)
    decreases |s| - i
  {
    if i < |s| {
      match TokenAt(s, i) {
        case Text(_, next) => PlainEndIsNotDangling(s, next);
        case Unclosed =>
        case Expression(_, to) => PlainEndIsNotDangling(s, to + 1);
      }
    }
  }

  // ---------------------------------------------------------------- escaping

  /** Every '$' written as "\\$". */
  function Escape(s: string): string {
    if s == "" then "" else (if s[0] == '$' then "\\$" else [s[0]]) + Escape(s[1..])
  }

  /** Expanding an escaped string gives the string back, whatever it contains. */
  lemma EscapeRoundTrips(env: Env, s: string, depth: nat)
    requires depth <= MAX_DEPTH
    ensures Expand(env, Escape(s), depth) == Ok(s)
  {
    EscapedTextIsCopied(Evaluator(env, depth), s);
  }

  lemma {:induction false} EscapedTextIsCopied(eval: string -> Expansion, s: string)
    ensures ExpandWith(eval, Escape(s), 0) == Ok(s)
  {
    if s != "" {
      var rest := Escape(s[1..]);
      EscapedTextIsCopied(eval, s[1..]);
      assert rest == "" || rest[0] != '$' by {
        if s[1..] != "" {
          assert rest == (if s[1] == '$' then "\\$" else [s[1]]) + Escape(s[1..][1..]);
        }
      }
      var skip := if s[0] == '$' then 2 else 1;
      assert Escape(s)[skip..] == rest;
      ExpansionShifts(eval, Escape(s), skip, 0);
      assert s == [s[0]] + s[1..];
    }
  }

  /** Every '$' doubled. */
  function Doubled(s: string): string {
    if s == "" then "" else (if s[0] == '$' then "$$" else [s[0]]) + Doubled(s[1..])
  }

  /** Without backslashes doubling serves as well. */
  lemma {:induction false} DoublingRoundTrips(env: Env, s: string, depth: nat)
    requires depth <= MAX_DEPTH && '\\' !in s
    ensures Expand(env, Doubled(s), depth) == Ok(s)
  {
    DoubledIsCopied(Evaluator(env, depth), "", s);
    assert "" + Doubled(s) == Doubled(s);
  }

  lemma {:induction false} DoubledIsCopied(eval: string -> Expansion, before: string, s: string)
    requires '\\' !in s
    ensures ExpandWith(eval, before + Doubled(s), |before|) == Ok(s)
    decreases |s|
  {
    hide ExpandWith;
    var text := before + Doubled(s);
    ExpandStep(eval, text, |before|);
    if s != "" {
      var first := if s[0] == '$' then "$$" else [s[0]];
      assert text == (before + first) + Doubled(s[1..]);
      DoubledIsCopied(eval, before + first, s[1..]);
      assert s[0] in s && s == [s[0]] + s[1..];
      FirstOfDoubled(text, |before|, s[0], first);
    }
  }

  lemma FirstOfDoubled(text: string, at: nat, c: char, first: string)
    requires c != '\\' && first == (if c == '$' then "$$" else [c]) && at + |first| <= |text| && text[at..at + |first|] == first
    ensures TokenAt(text, at) == Text([c], at + |first|)
  {
    assert text[at] == first[0];
    if c == '$' {
      assert text[at + 1] == first[1];
    }
  }

  // ---------------------------------------------------------------- text that expands to itself

  /** No "\\$", "$$" or "${" from position i on; a '$' before anything else is copied. */
  ghost predicate Inert(s: string, i: nat) {
    forall k :: i <= k && k + 1 < |s| ==> !(s[k] in {'\\', '$'} && s[k + 1] == '$') && !OpensBrace(s, k)
  }

  lemma {:induction false} InertIsCopied(eval: string -> Expansion, s: string, i: nat)
    requires Inert(s, i) && i <= |s|
    ensures ExpandWith(eval, s, i) == Ok(s[i..])
    decreases |s| - i
  {
    if i < |s| {
      InertIsCopied(eval, s, i + 1);
      assert s[i..] == [s[i]] + s[i + 1..];
    }
  }

  /** An environment in which every variable has the value `filler`. */
  function Filled(filler: string): Env {
    Env(name => (filler, true), c => false, c => false)
  }

  lemma FilledEvaluates(filler: string, e: string, depth: nat)
    requires filler != "" && Inert(filler, 0) && depth < MAX_DEPTH
    ensures Evaluate(Filled(filler), e, depth) in {Err(InvalidName), Ok(filler)}
  {
    InertIsCopied(Evaluator(Filled(filler), depth + 1), filler, 0);
    assert filler[0..] == filler;
  }

  /** Where something is not copied, a long filler shows: the expansion fails, is too long or, with
      escapes alone, too short. */
  lemma {:induction false} FillerShows(eval: string -> Expansion, filler: string, s: string, i: nat)
    requires i <= |s| && forall e :: eval(e) in {Err(InvalidName), Ok(filler)}
    requires |filler| > |s|
    ensures var r := ExpandWith(eval, s, i);
            r.Ok? ==> |r.text| > |s| || (|r.text| <= |s| - i && (|r.text| == |s| - i ==> Inert(s, i)) && (i < |s| ==> r.text != ""))
    decreases |s| - i
  {
    if i < |s| {
      match TokenAt(s, i) {
        case Text(_, next) => FillerShows(eval, filler, s, next);
        case Unclosed =>
        case Expression(_, to) => FillerShows(eval, filler, s, to + 1);
      }
    }
  }

  /** Text expands to itself in every environment exactly when it is inert. */
  lemma ExpandsToItselfExactly(s: string)
    ensures (forall env :: Expand(env, s, 0) == Ok(s)) <==> Inert(s, 0)
  {
    if Inert(s, 0) {
      forall env ensures Expand(env, s, 0) == Ok(s) {
        InertIsCopied(Evaluator(env, 0), s, 0);
        assert s[0..] == s;
      }
    } else {
      FillerChanges(s, Filler(|s|));
      assert Expand(Filled(Filler(|s|)), s, 0) != Ok(s);
    }
  }

  /** A long text without anything to expand. */
  function Filler(n: nat): (f: string)
    ensures |f| > n && forall k :: 0 <= k < |f| ==> f[k] == 'x'
  {
    seq(n + 1, _ => 'x')
  }

  /** What is not inert becomes something else, longer or shorter but not empty, or fails. */
  lemma FillerChanges(s: string, filler: string)
    requires !Inert(s, 0) && |filler| > |s| && Inert(filler, 0)
    ensures var r := Expand(Filled(filler), s, 0); r.Ok? ==> |r.text| != |s| && r.text != ""
  {
    hide ExpandWith, Inert;
    var eval := Evaluator(Filled(filler), 0);
    forall e ensures eval(e) in {Err(InvalidName), Ok(filler)} {
      FilledEvaluates(filler, e, 1);
    }
    FillerShows(eval, filler, s, 0);
  }

  // ---------------------------------------------------------------- the scanners agree

  /** Every '}' closes an "${" and every "${" is closed. */
  predicate Balanced(e: string, i: nat, depth: nat)
    decreases |e| - i
  {
    if i >= |e| then depth == 0
    else if OpensBrace(e, i) then Balanced(e, i + 2, depth + 1)
    else if e[i] == '}' then depth > 0 && Balanced(e, i + 1, depth - 1)
    else Balanced(e, i + 1, depth)
  }

  /** The second scanner without its clamp: the nesting may go negative. */
  function UnclampedDefault(e: string, i: nat, depth: int): Option<nat>
    decreases |e| - i
  {
    if i >= |e| then None
    else if OpensBrace(e, i) then UnclampedDefault(e, i + 2, depth + 1)
    else if e[i] == '}' then UnclampedDefault(e, i + 1, depth - 1)
    else if depth == 0 && DefaultMark(e, i) then Some(i)
    else UnclampedDefault(e, i + 1, depth)
  }

  /** A scan that starts inside `e` and closes right after it has passed over balanced text, and
      only then. */
  lemma {:induction false} ClosesExactlyBalanced(s: string, start: nat, i: nat, end: nat, depth: nat)
    requires start <= i <= end < |s| && s[end] == '}' && depth > 0
    ensures ClosingBrace(s, i, depth) == Some(end) <==> Balanced(s[start..end], i - start, depth - 1)
    decreases end - i
  {
    var e := s[start..end];
    if i < end {
      assert e[i - start] == s[i];
      assert OpensBrace(e, i - start) <==> OpensBrace(s, i);
      if OpensBrace(s, i) {
        if i + 2 <= end {
          ClosesExactlyBalanced(s, start, i + 2, end, depth + 1);
        }
      } else if s[i] == '}' {
        if depth > 1 {
          ClosesExactlyBalanced(s, start, i + 1, end, depth - 1);
        }
      } else {
        ClosesExactlyBalanced(s, start, i + 1, end, depth);
      }
    }
  }

  lemma {:induction false} ClampNeverMatters(e: string, i: nat, depth: nat)
    requires Balanced(e, i, depth)
    ensures TopLevelDefault(e, i, depth) == UnclampedDefault(e, i, depth)
    decreases |e| - i
  {
    if i < |e| {
      if OpensBrace(e, i) {
        ClampNeverMatters(e, i + 2, depth + 1);
      } else if e[i] == '}' {
        ClampNeverMatters(e, i + 1, depth - 1);
      } else {
        ClampNeverMatters(e, i + 1, depth);
      }
    }
  }

  /** Every expression the first scanner cuts out is balanced, so the clamp of the second scanner
      never matters on it; and every balanced text is cut out whole. */
  lemma ScannersAgree(s: string, start: nat, end: nat)
    requires start <= end < |s| && s[end] == '}'
    ensures ClosingBrace(s, start, 1) == Some(end) <==> Balanced(s[start..end], 0, 0)
    ensures ClosingBrace(s, start, 1) == Some(end) ==>
              TopLevelDefault(s[start..end], 0, 0) == UnclampedDefault(s[start..end], 0, 0)
  {
    ClosesExactlyBalanced(s, start, start, end, 1);
    if Balanced(s[start..end], 0, 0) {
      ClampNeverMatters(s[start..end], 0, 0);
    }
  }

  // ---------------------------------------------------------------- self-reference

  /** A deeper start changes a successful expansion only by exceeding the depth bound. */
  lemma {:induction false} DeeperOnlyExceeds(env: Env, s: string, shallow: nat, deep: nat)
    requires shallow <= deep && Expand(env, s, shallow).Ok?
    ensures Expand(env, s, deep) == Expand(env, s, shallow) || Expand(env, s, deep) == Err(DepthExceeded)
    decreases Fuel(shallow), 0
  {
    if deep <= MAX_DEPTH {
      forall e | Evaluator(env, shallow)(e).Ok?
        ensures SameOrExceeded(Evaluator(env, deep)(e), Evaluator(env, shallow)(e))
      {
        DeeperEvaluation(env, e, shallow + 1, deep + 1);
      }
      SameOrExceededThroughout(Evaluator(env, shallow), Evaluator(env, deep), s, 0);
    }
  }

  predicate SameOrExceeded(deep: Expansion, shallow: Expansion) {
    deep == shallow || deep == Err(DepthExceeded)
  }

  lemma {:induction false} DeeperEvaluation(env: Env, e: string, shallow: nat, deep: nat)
    requires shallow <= deep && Evaluate(env, e, shallow).Ok?
    ensures SameOrExceeded(Evaluate(env, e, deep), Evaluate(env, e, shallow))
    decreases Fuel(shallow), 1
  {
    var mark := TopLevelDefault(e, 0, 0);
    var (val, isSet) := env.lookup(NameIn(e));
    if isSet && val != "" {
      assert shallow + 1 <= MAX_DEPTH;
      DeeperOnlyExceeds(env, val, shallow + 1, deep + 1);
    } else if mark.Some? {
      DeeperOnlyExceeds(env, e[mark.value + 2..], shallow, deep);
    }
  }

  /** The variable an expression names. */
  function NameIn(e: string): string {
    var mark := TopLevelDefault(e, 0, 0);
    Trim(if mark.Some? then e[..mark.value] else e)
  }

  lemma {:induction false} SameOrExceededThroughout(eval: string -> Expansion, deep: string -> Expansion, s: string, i: nat)
    requires forall e :: eval(e).Ok? ==> SameOrExceeded(deep(e), eval(e))
    requires ExpandWith(eval, s, i).Ok?
    ensures SameOrExceeded(ExpandWith(deep, s, i), ExpandWith(eval, s, i))
    decreases |s| - i
  {
    hide ExpandWith, TokenAt, Prepend;
    ExpandStep(eval, s, i);
    ExpandStep(deep, s, i);
    if i < |s| {
      match TokenAt(s, i) {
        case Text(piece, next) =>
          PrependOk(piece, ExpandWith(eval, s, next));
          SameOrExceededThroughout(eval, deep, s, next);
          PrependEnds(piece, ExpandWith(deep, s, next));
        case Unclosed =>
        case Expression(from, to) =>
          var val := eval(s[from..to]);
          PrependOk(val.text, ExpandWith(eval, s, to + 1));
          SameOrExceededThroughout(eval, deep, s, to + 1);
          PrependEnds(val.text, ExpandWith(deep, s, to + 1));
      }
    }
  }

  lemma PrependOk(p: string, e: Expansion)
    ensures Prepend(p, e).Ok? <==> e.Ok?
  {
  }

  /** A failure other than an unclosed expression comes before anything that is appended. */
  lemma {:induction false} FailureIsLocal(eval: string -> Expansion, s: string, t: string, i: nat)
    requires i <= |s| && ExpandWith(eval, s, i).Err? && ExpandWith(eval, s, i) != Err(Unterminated)
    ensures ExpandWith(eval, s + t, i) == ExpandWith(eval, s, i)
    decreases |s| - i
  {
    hide ExpandWith, TokenAt;
    ExpandStep(eval, s, i);
    ExpandStep(eval, s + t, i);
    if i < |s| {
      LoneExpands(eval, s, i);
      TokenIsLocal(s, t, i);
      match TokenAt(s, i) {
        case Text(_, next) => FailureIsLocal(eval, s, t, next);
        case Expression(from, to) =>
          assert (s + t)[from..to] == s[from..to];
          if eval(s[from..to]).Ok? {
            FailureIsLocal(eval, s, t, to + 1);
          }
      }
    }
  }

  lemma LoneExpands(eval: string -> Expansion, s: string, i: nat)
    requires i < |s|
    ensures LoneAt(s, i) ==> ExpandWith(eval, s, i).Ok?
  {
  }

  /** `value` comes, after a prefix, to an expression that names `name`, with or without a default. */
  ghost predicate RefersTo(value: string, pre: string, e: string, post: string, name: string) {
    value == pre + ("${" + e + "}") + post && Balanced(e, 0, 0) && NameIn(e) == name && !Dangling(pre, 0)
  }

  /** Text that starts with a balanced expression in braces is read as that expression. */
  lemma LeadingExpression(eval: string -> Expansion, e: string, post: string)
    requires Balanced(e, 0, 0) && eval(e).Err?
    ensures ExpandWith(eval, "${" + e + "}" + post, 0) == eval(e)
  {
    hide ExpandWith, Balanced, ClosingBrace;
    var s := "${" + e + "}" + post;
    var end := 2 + |e|;
    assert s[2..end] == e && s[end] == '}' && s[0] == '$' && s[1] == '{';
    ScannersAgree(s, 2, end);
    ExpandStep(eval, s, 0);
  }

  /** A set variable whose value comes to an expression naming that variable again never expands,
      unless the text before it fails in another way: the depth bound refuses it. */
  lemma SelfReferenceIsRefused(env: Env, name: string, value: string, pre: string, e: string, post: string, depth: nat)
    requires ValidName(env, name) && env.lookup(name) == (value, true)
    requires RefersTo(value, pre, e, post, name) && Expand(env, pre, depth).Ok?
    ensures Expand(env, value, depth) == Err(DepthExceeded)
  {
    Circles(env, name, value, pre, e, post, depth);
  }

  lemma {:induction false} Circles(env: Env, name: string, value: string, pre: string, e: string, post: string, depth: nat)
    requires ValidName(env, name) && env.lookup(name) == (value, true)
    requires RefersTo(value, pre, e, post, name)
    requires Expand(env, pre, depth).Ok? || Expand(env, pre, depth) == Err(DepthExceeded)
    ensures Expand(env, value, depth) == Err(DepthExceeded)
    decreases Fuel(depth)
  {
    hide ExpandWith, Balanced, Dangling, ClosingBrace, TopLevelDefault, Trim, ValidName;
    if depth <= MAX_DEPTH {
      var eval := Evaluator(env, depth);
      var rest := "${" + e + "}" + post;
      assert value == pre + rest;
      if Expand(env, pre, depth).Ok? {
        DeeperOnlyExceeds(env, pre, depth, depth + 2);
        Circles(env, name, value, pre, e, post, depth + 2);
        assert eval(e) == Expand(env, value, depth + 2) by { NamedValueIsExpanded(env, e, name, value, depth + 1); }
        LeadingExpression(eval, e, post);
        ExpansionSplits(eval, pre, rest, 0);
        PrependEnds(Expand(env, pre, depth).text, eval(e));
      } else {
        FailureIsLocal(eval, pre, rest, 0);
      }
    }
  }

  /** An expression that names a set variable has the expansion of its value. */
  lemma NamedValueIsExpanded(env: Env, e: string, name: string, value: string, depth: nat)
    requires NameIn(e) == name && ValidName(env, name) && env.lookup(name) == (value, true) && value != ""
    ensures Evaluate(env, e, depth) == Expand(env, value, depth + 1)
  {
    hide Expand, Trim, ValidName, TopLevelDefault;
  }

  // ---------------------------------------------------------------- a variable with a plain default

  /** "${name:-default}". */
  function WithDefault(name: string, default: string): string {
    "${" + (name + ":-" + default) + "}"
  }

  /** No character that either brace scanner looks at. */
  predicate Unmarked(s: string) {
    '$' !in s && '}' !in s && ':' !in s && '\\' !in s
  }

  lemma {:induction false} UnmarkedIsBalanced(e: string, i: nat)
    requires '$' !in e && '}' !in e && i <= |e|
    ensures Balanced(e, i, 0)
    decreases |e| - i
  {
    if i < |e| {
      assert e[i] in e;
      UnmarkedIsBalanced(e, i + 1);
    }
  }

  lemma {:induction false} DefaultAfterName(name: string, default: string, i: nat)
    requires Unmarked(name) && i <= |name|
    ensures TopLevelDefault(name + ":-" + default, i, 0) == Some(|name|)
    decreases |name| - i
  {
    if i < |name| {
      assert (name + ":-" + default)[i] == name[i] && name[i] in name;
      DefaultAfterName(name, default, i + 1);
    }
  }

  /** A letter or '_', then letters, digits and '_'. */
  ghost predicate Identifier(env: Env, name: string) {
    && name != "" && (name[0] == '_' || env.isLetter(name[0]))
    && forall c :: c in name[1..] ==> c == '_' || env.isLetter(c) || env.isDigit(c)
  }

  lemma IdentifiersAreValid(env: Env, name: string)
    ensures ValidName(env, name) <==> Identifier(env, name)
  {
    if name != "" {
      forall i | 1 <= i < |name| ensures name[i] == name[1..][i - 1] && name[i] in name[1..] {}
      if ValidName(env, name) {
        forall c | c in name[1..] ensures c == '_' || env.isLetter(c) || env.isDigit(c) {
          var i :| 0 <= i < |name[1..]| && name[1..][i] == c;
          assert c == name[i + 1];
        }
      }
    }
  }

  /** A text that is one expression is expanded to the value of the expression. */
  lemma LoneExpression(env: Env, e: string)
    requires Balanced(e, 0, 0)
    ensures Expand(env, "${" + e + "}", 0) == Evaluate(env, e, 1)
  {
    hide ExpandWith, Balanced, ClosingBrace, TopLevelDefault, Trim, ValidName, Evaluate;
    var s := "${" + e + "}";
    var end := 2 + |e|;
    var eval := Evaluator(env, 0);
    assert s[2..end] == e && s[end] == '}' && s[0] == '$' && s[1] == '{';
    ScannersAgree(s, 2, end);
    ExpandStep(eval, s, 0);
    ExpandStep(eval, s, end + 1);
    assert eval(e) == Evaluate(env, e, 1);
    assert eval(e).Ok? ==> eval(e).text + "" == eval(e).text;
  }

  /** "${name}", white space around the name allowed, expands to what the variable's value expands to
      two levels down; a variable that is unset or empty to the value the lookup gives, which is empty.
      A name that is no identifier fails. */
  lemma VariableExpands(env: Env, text: string)
    requires Unmarked(text)
    ensures var name := Trim(text);
            Expand(env, "${" + text + "}", 0) ==
            if !Identifier(env, name) then Err(InvalidName)
            else if env.lookup(name).1 && env.lookup(name).0 != "" then Expand(env, env.lookup(name).0, 2)
            else Ok(env.lookup(name).0)
  {
    hide Expand, Trim, ValidName, Identifier;
    UnmarkedIsBalanced(text, 0);
    LoneExpression(env, text);
    NoDefault(text, 0);
    IdentifiersAreValid(env, Trim(text));
  }

  lemma {:induction false} NoDefault(e: string, i: nat)
    requires Unmarked(e) && i <= |e|
    ensures TopLevelDefault(e, i, 0) == None
    decreases |e| - i
  {
    if i < |e| {
      assert e[i] in e;
      NoDefault(e, i + 1);
    }
  }

  /** "${name:-default}", for any default that is balanced text, expands the variable, or the default
      if the variable is unset or empty. */
  lemma DefaultIsExpanded(env: Env, text: string, default: string)
    requires Unmarked(text) && Balanced(default, 0, 0)
    ensures var name := Trim(text);
            Expand(env, WithDefault(text, default), 0) ==
            if !Identifier(env, name) then Err(InvalidName)
            else if env.lookup(name).1 && env.lookup(name).0 != "" then Expand(env, env.lookup(name).0, 2)
            else Expand(env, default, 1)
  {
    hide Expand, Trim, ValidName, Identifier, Balanced;
    var e := text + ":-" + default;
    BalancedAfter(text, default, 0);
    LoneExpression(env, e);
    DefaultAfterName(text, default, 0);
    assert e[..|text|] == text && e[|text| + 2..] == default;
    IdentifiersAreValid(env, Trim(text));
  }

  lemma {:induction false} BalancedAfter(name: string, default: string, i: nat)
    requires Unmarked(name) && Balanced(default, 0, 0) && i <= |name|
    ensures Balanced(name + ":-" + default, i, 0)
    decreases |name| - i
  {
    var e := name + ":-" + default;
    if i < |name| {
      assert e[i] == name[i] && name[i] in name;
      BalancedAfter(name, default, i + 1);
    } else {
      assert e[i] == ':' && e[i + 1] == '-';
      BalancedShifts(e, default, |name| + 2, 0, 0);
    }
  }

  lemma {:induction false} BalancedShifts(e: string, tail: string, from: nat, i: nat, depth: nat)
    requires from <= |e| && e[from..] == tail && Balanced(tail, i, depth)
    ensures Balanced(e, from + i, depth)
    decreases |tail| - i
  {
    if i < |tail| {
      assert e[from + i] == tail[i];
      assert OpensBrace(e, from + i) <==> OpensBrace(tail, i) by {
        if i + 1 < |tail| { assert e[from + i + 1] == tail[i + 1]; }
      }
      if OpensBrace(tail, i) {
        BalancedShifts(e, tail, from, i + 2, depth + 1);
      } else if tail[i] == '}' {
        BalancedShifts(e, tail, from, i + 1, depth - 1);
      } else {
        BalancedShifts(e, tail, from, i + 1, depth);
      }
    }
  }

  /** In particular a plain default is the value itself. */
  lemma DefaultExpands(env: Env, name: string, default: string)
    requires Unmarked(name) && Trim(name) == name && Unmarked(default)
    ensures Expand(env, WithDefault(name, default), 0) ==
            if !ValidName(env, name) then Err(InvalidName)
            else if env.lookup(name).1 && env.lookup(name).0 != "" then Expand(env, env.lookup(name).0, 2)
            else Ok(default)
  {
    hide Expand, Balanced, Trim, ValidName, Identifier, WithDefault;
    UnmarkedIsBalanced(default, 0);
    DefaultIsExpanded(env, name, default);
    NothingToExpand(env, default);
    IdentifiersAreValid(env, name);
  }

  /** An expression that is not closed fails. */
  lemma UnclosedFails(env: Env, text: string)
    requires Unmarked(text)
    ensures Expand(env, "${" + text, 0) == Err(Unterminated)
  {
    var s := "${" + text;
    assert s[0] == '$' && s[1] == '{';
    forall k | 2 <= k < |s| ensures s[k] !in {'$', '}'} {
      assert s[k] == text[k - 2] && text[k - 2] in text;
    }
    NeverCloses(s, 2);
    ExpandStep(Evaluator(env, 0), s, 0);
  }

  lemma {:induction false} NeverCloses(s: string, i: nat)
    requires forall k :: i <= k < |s| ==> s[k] !in {'$', '}'}
    ensures ClosingBrace(s, i, 1) == None
    decreases |s| - i
  {
    if i < |s| {
      NeverCloses(s, i + 1);
    }
  }

  /** Text with nothing to expand is itself up to nesting 32, and refused below. */
  lemma DepthIsBounded(env: Env, s: string, depth: nat)
    requires Inert(s, 0)
    ensures Expand(env, s, depth) == if depth <= 32 then Ok(s) else Err(DepthExceeded)
  {
    if depth <= 32 {
      InertIsCopied(Evaluator(env, depth), s, 0);
      assert s[0..] == s;
    }
  }

  lemma NothingToExpand(env: Env, s: string)
    requires Unmarked(s)
    ensures Expand(env, s, 1) == Ok(s)
  {
    forall k | 0 <= k && k + 1 < |s| ensures !(s[k] in {'\\', '$'} && s[k + 1] == '$') && !OpensBrace(s, k) {
      assert s[k] in s && s[k + 1] in s;
    }
    InertIsCopied(Evaluator(env, 1), s, 0);
    assert s[0..] == s;
  }
}
