/**
 * `parse_constraint` and `parse_objective` of project/app.py: the regular
 * expressions `([+-]?\d*)x`, `([+-]?\d*)y`, `<=([+-]?\d+)$` and the
 * start-anchored fallback `([+-]?\d*)x\+?([+-]?\d*)y<=([+-]?\d+)`, written as
 * functions that follow the matching engine: `re.search` tries start
 * positions from left to right, each group is matched greedily, and
 * backtracking is written out where it can change the outcome.
 */
module ExpressionParser {
  import opened Wrappers
  import opened Text

  /** `[+-]?\d*` matches all of g. */
  predicate IsCoefficient(g: string) {
    AllDigits(g) || (|g| > 0 && IsSign(g[0]) && AllDigits(g[1..]))
  }

  /** `[+-]?\d+` matches all of g. */
  predicate IsSignedInteger(g: string) {
    (|g| > 0 && AllDigits(g)) || (|g| > 1 && IsSign(g[0]) && AllDigits(g[1..]))
  }

  /** Python's `int(g)` on a signed run of digits. */
  function IntegerValue(g: string): int
    requires IsSignedInteger(g)
  {
    if IsSign(g[0]) then
      var n: int := DigitsValue(g[1..]);
      if g[0] == '-' then -n else n
    else DigitsValue(g)
  }

  /** `to_int(raw)`: "" and "+" mean 1, "-" means -1, anything else is `int(raw)`. */
  function CoefficientValue(g: string): (n: int)
    requires IsCoefficient(g)
    ensures IsSignedInteger(g) ==> n == IntegerValue(g)
    ensures !IsSignedInteger(g) ==> (n == -1 <==> g == "-") && (n == 1 <==> g != "-")
  {
    if g == "" || g == "+" then 1
    else if g == "-" then -1
    else IntegerValue(g)
  }

  /** A '+' written in front of an unsigned coefficient does not change its value. */
  lemma PlusCoefficientValue(b: string)
    requires AllDigits(b)
    ensures IsCoefficient("+" + b) && CoefficientValue("+" + b) == CoefficientValue(b)
  {
    assert ("+" + b)[1..] == b;
  }

  /** A character that `[+-]?\d*` can never consume past its first position. */
  lemma NotCoefficientInside(u: string, i: int)
    requires 0 < i < |u| && !IsDigit(u[i])
    ensures !IsCoefficient(u)
  {
    assert u[1..][i - 1] == u[i];
  }

  /** The greedy match of `[+-]?\d*` at the start of u. */
  function LeadingCoefficient(u: string): (g: string)
    ensures IsCoefficient(g) && |g| <= |u| && g == u[..|g|]
    ensures |g| < |u| ==> !IsDigit(u[|g|])
    ensures |g| == 0 && |u| > 0 ==> !IsSign(u[0])
  {
    if |u| > 0 && IsSign(u[0]) then
      var k := LeadingDigits(u[1..]);
      assert u[..1 + k][1..] == u[1..][..k];
      u[..1 + k]
    else u[..LeadingDigits(u)]
  }

  /** The greedy match stops exactly at the end of a coefficient followed by a non-digit. */
  lemma LeadingCoefficientOf(g: string, rest: string)
    requires IsCoefficient(g) && |rest| > 0 && !IsDigit(rest[0])
    requires g == "" ==> !IsSign(rest[0])
    ensures LeadingCoefficient(g + rest) == g
  {
    var u := g + rest;
    var h := LeadingCoefficient(u);
    if |h| < |g| {
      CoefficientChars(g, |h|);
      if |h| > 0 {
        CoefficientTail(g, |h|);
      }
    } else if |h| > |g| {
      assert h[|g|] == rest[0];
      if |g| > 0 {
        CoefficientTail(h, |g|);
      }
    }
  }

  /** Past its first position a coefficient holds only digits. */
  lemma CoefficientTail(g: string, i: int)
    requires IsCoefficient(g) && 0 < i < |g|
    ensures IsDigit(g[i])
  {
    assert g[1..][i - 1] == g[i];
  }

  /** The group of `([+-]?\d*)v` when the pattern matches at position p of s. */
  function MatchCoefficientAt(s: string, v: char, p: nat): (r: Option<string>)
    requires p <= |s|
    ensures r.Some? ==> var g := r.value;
      IsCoefficient(g) && p + |g| < |s| && s[p..p + |g|] == g && s[p + |g|] == v
  {
    var g := LeadingCoefficient(s[p..]);
    if p + |g| < |s| && s[p + |g|] == v then Some(g) else None
  }

  /** The pattern matches wherever a coefficient is followed by v; the regex cannot miss it. */
  lemma MatchCoefficientAtComplete(s: string, v: char, p: nat, q: nat)
    requires !IsDigit(v) && !IsSign(v)
    requires p <= q < |s| && s[q] == v && IsCoefficient(s[p..q])
    ensures MatchCoefficientAt(s, v, p) == Some(s[p..q])
  {
    assert s[p..] == s[p..q] + s[q..];
    LeadingCoefficientOf(s[p..q], s[q..]);
  }

  /** Where a `re.search` match starts, and its group. */
  datatype Found = Found(start: nat, group: string)

  /** The first start position at or after p where `([+-]?\d*)v` matches. */
  function SearchFrom(s: string, v: char, p: nat): (r: Option<Found>)
    requires p <= |s|
    ensures r.Some? ==> p <= r.value.start < |s|
    ensures r.Some? ==> MatchCoefficientAt(s, v, r.value.start) == Some(r.value.group)
    decreases |s| - p
  {
    match MatchCoefficientAt(s, v, p)
    case Some(g) => Some(Found(p, g))
    case None => if p == |s| then None else SearchFrom(s, v, p + 1)
  }

  /** The search passes over no position where the pattern matches. */
  lemma {:induction false} SearchFromFirst(s: string, v: char, p: nat, i: nat)
    requires p <= |s| && SearchFrom(s, v, p).Some? && p <= i < SearchFrom(s, v, p).value.start
    ensures MatchCoefficientAt(s, v, i).None?
    decreases |s| - p
  {
    assert MatchCoefficientAt(s, v, p).None?;
    if i > p {
      assert SearchFrom(s, v, p) == SearchFrom(s, v, p + 1);
      SearchFromFirst(s, v, p + 1, i);
    }
  }

  /** The search fails only when the pattern matches nowhere. */
  lemma {:induction false} SearchFromNowhere(s: string, v: char, p: nat, i: nat)
    requires p <= |s| && SearchFrom(s, v, p).None? && p <= i <= |s|
    ensures MatchCoefficientAt(s, v, i).None?
    decreases |s| - p
  {
    if i > p {
      SearchFromNowhere(s, v, p + 1, i);
    }
  }

  /** `re.search(r'([+-]?\d*)v', s)` */
  function Search(s: string, v: char): (r: Option<Found>)
    ensures r.Some? ==> v in s
    ensures r.Some? ==> r.value.start < |s| && MatchCoefficientAt(s, v, r.value.start) == Some(r.value.group)
  {
    SearchFrom(s, v, 0)
  }

  lemma CoefficientChars(g: string, i: int)
    requires IsCoefficient(g) && 0 <= i < |g|
    ensures IsDigit(g[i]) || IsSign(g[i])
  {
    if !AllDigits(g) && i > 0 {
      assert g[1..][i - 1] == g[i];
    }
  }

  /** Where a coefficient at k runs up to a v the pattern matches, so the search stops there or earlier. */
  lemma SearchStartsBy(s: string, v: char, k: nat, q: nat)
    requires !IsDigit(v) && !IsSign(v) && k <= q < |s| && s[q] == v && IsCoefficient(s[k..q])
    ensures Search(s, v).Some? && Search(s, v).value.start <= k
  {
    MatchCoefficientAtComplete(s, v, k, q);
    if Search(s, v).None? {
      SearchFromNowhere(s, v, 0, k);
    } else if Search(s, v).value.start > k {
      SearchFromFirst(s, v, 0, k);
    }
  }

  /** A match found before the first v ends at that v. */
  lemma SearchEndsAt(s: string, v: char, q: nat, f: Found)
    requires !IsDigit(v) && !IsSign(v) && q < |s| && s[q] == v && v !in s[..q]
    requires f.start <= q && MatchCoefficientAt(s, v, f.start) == Some(f.group)
    ensures f.start + |f.group| == q
  {
    var e := f.start + |f.group|;
    if e > q {
      assert f.group[q - f.start] == v;
      CoefficientChars(f.group, q - f.start);
    }
  }

  /** No coefficient ending at the first v starts before the match. */
  lemma SearchNoEarlier(s: string, v: char, q: nat, i: nat)
    requires !IsDigit(v) && !IsSign(v) && q < |s| && s[q] == v
    requires Search(s, v).Some? && i < Search(s, v).value.start <= q
    ensures !IsCoefficient(s[i..q])
  {
    if IsCoefficient(s[i..q]) {
      MatchCoefficientAtComplete(s, v, i, q);
      SearchFromFirst(s, v, 0, i);
    }
  }

  /** The search for v, when v first occurs at q: its group is the coefficient written just before q. */
  lemma SearchAt(s: string, v: char, q: nat)
    requires !IsDigit(v) && !IsSign(v) && q < |s| && s[q] == v && v !in s[..q]
    ensures Search(s, v).Some?
    ensures var f := Search(s, v).value;
      && f.start + |f.group| == q
      && f.group == s[f.start..q]
      && IsCoefficient(f.group)
  {
    assert s[q..q] == "";
    SearchStartsBy(s, v, q, q);
    var f := Search(s, v).value;
    SearchEndsAt(s, v, q, f);
  }

  /** The search for the first v, when a coefficient at k runs up to it: the match starts at k or earlier. */
  lemma SearchWithin(s: string, v: char, k: nat, q: nat)
    requires !IsDigit(v) && !IsSign(v) && k <= q < |s| && s[q] == v && v !in s[..q] && IsCoefficient(s[k..q])
    ensures Search(s, v).Some?
    ensures var f := Search(s, v).value;
      && f.start <= k
      && f.start + |f.group| == q
      && f.group == s[f.start..q]
      && IsCoefficient(f.group)
  {
    SearchAt(s, v, q);
    SearchStartsBy(s, v, k, q);
  }

  /**
   * The search finds a match exactly when v occurs, and its group is the
   * longest sign-and-digit run standing immediately before the first v.
   */
  lemma SearchFirstOccurrence(s: string, v: char)
    requires !IsDigit(v) && !IsSign(v)
    ensures Search(s, v).Some? <==> v in s
    ensures v in s ==>
      var f, q := Search(s, v).value, IndexOf(s, v);
      && f.start + |f.group| == q
      && f.group == s[f.start..q]
      && IsCoefficient(f.group)
      && forall i :: 0 <= i < f.start ==> !IsCoefficient(s[i..q])
  {
    if v in s {
      var q := IndexOf(s, v);
      SearchAt(s, v, q);
      forall i | 0 <= i < Search(s, v).value.start
        ensures !IsCoefficient(s[i..q])
      {
        SearchNoEarlier(s, v, q, i);
      }
    }
  }

  /** The text `$` is matched against: `$` also matches just before a final newline. */
  function StripFinalNewline(s: string): (t: string)
    ensures t == s || (|s| > 0 && s[|s| - 1] == '\n' && t == s[..|s| - 1])
  {
    if |s| > 0 && s[|s| - 1] == '\n' then s[..|s| - 1] else s
  }

  /** `<=([+-]?\d+)$` matches at position j of t. */
  predicate RhsAt(t: string, j: nat) {
    j + 2 <= |t| && t[j] == '<' && t[j + 1] == '=' && IsSignedInteger(t[j + 2..])
  }

  /** The first position at or after j where the right-hand-side pattern matches. */
  function RhsFrom(t: string, j: nat): (r: Option<nat>)
    requires j <= |t|
    ensures r.Some? ==> j <= r.value && RhsAt(t, r.value)
    ensures r.None? ==> forall i :: j <= i ==> !RhsAt(t, i)
    decreases |t| - j
  {
    if RhsAt(t, j) then Some(j)
    else if j == |t| then None
    else RhsFrom(t, j + 1)
  }

  /** At most one position can match, because the pattern runs to the end of the text. */
  lemma RhsUnique(t: string, i: nat, j: nat)
    requires RhsAt(t, i) && RhsAt(t, j)
    ensures i == j
  {
  }

  /** `re.search(r'<=([+-]?\d+)$', s)`, giving its group. */
  function SearchRhs(s: string): (r: Option<string>)
    ensures r.Some? ==> IsSignedInteger(r.value)
    ensures r.Some? <==> exists j :: RhsAt(StripFinalNewline(s), j)
    ensures r.Some? ==> HasRightHandSide(s)
  {
    var t := StripFinalNewline(s);
    match RhsFrom(t, 0)
    case Some(j) =>
      RhsAtHasRightHandSide(s, j);
      Some(t[j + 2..])
    case None => None
  }

  /** s[j..k] is "<=" followed by a signed integer. */
  predicate LessEqualInteger(s: string, j: int, k: int) {
    0 <= j && j + 2 < k <= |s| && s[j] == '<' && s[j + 1] == '=' && IsSignedInteger(s[j + 2..k])
  }

  /** "<=" followed by a signed integer occurs somewhere in s. */
  predicate HasRightHandSide(s: string) {
    exists j, k | 0 <= j < k <= |s| :: LessEqualInteger(s, j, k)
  }

  /** Where the right-hand-side pattern matches, "<=" and a signed integer stand in s. */
  lemma RhsAtHasRightHandSide(s: string, j: nat)
    requires RhsAt(StripFinalNewline(s), j)
    ensures HasRightHandSide(s)
  {
    var t := StripFinalNewline(s);
    assert s[j + 2..|t|] == t[j + 2..];
    assert s[j] == t[j] && s[j + 1] == t[j + 1];
    assert LessEqualInteger(s, j, |t|);
  }

  /** The groups of the start-anchored fallback pattern, and whether its `\+?` took a '+'. */
  datatype AltGroups = AltGroups(a: string, plus: bool, b: string, rhs: string)

  /** The text the fallback pattern consumed. */
  function AltText(m: AltGroups): string {
    m.a + ("x" + (PlusText(m.plus) + (m.b + ("y<=" + m.rhs))))
  }

  /** A prefix followed by a prefix of what remains is a prefix. */
  lemma PrefixThen(p: string, q: string, s: string)
    requires p <= s && q <= s[|p|..]
    ensures p + q <= s
  {
    assert (p + q)[..|p|] == s[..|p|];
    assert forall i :: |p| <= i < |p| + |q| ==> (p + q)[i] == q[i - |p|] == s[|p|..][i - |p|];
  }

  /** `([+-]?\d*)y<=([+-]?\d+)` at the start of u: the second and third groups. */
  function AltTail(u: string): (r: Option<(string, string)>)
    ensures r.Some? ==> IsCoefficient(r.value.0) && IsSignedInteger(r.value.1)
    ensures r.Some? ==> r.value.0 + ("y<=" + r.value.1) <= u
  {
    var b := LeadingCoefficient(u);
    var w := u[|b|..];
    if |w| >= 3 && w[0] == 'y' && w[1] == '<' && w[2] == '=' then
      var rhs := LeadingCoefficient(w[3..]);
      if IsSignedInteger(rhs) then
        AltTailPrefix(u, b, rhs);
        Some((b, rhs))
      else None
    else None
  }

  lemma AltTailPrefix(u: string, b: string, rhs: string)
    requires b <= u && |u| >= |b| + 3 && u[|b|] == 'y' && u[|b| + 1] == '<' && u[|b| + 2] == '='
    requires rhs <= u[|b| + 3..]
    ensures b + ("y<=" + rhs) <= u
  {
    var w := u[|b|..];
    assert "y<=" <= w;
    assert w[3..] == u[|b| + 3..];
    PrefixThen("y<=", rhs, w);
    PrefixThen(b, "y<=" + rhs, u);
  }

  /** The text `\+?` consumed. */
  function PlusText(plus: bool): string {
    if plus then "+" else ""
  }

  /**
   * `\+?([+-]?\d*)y<=([+-]?\d+)` at the start of u. `\+?` first takes a '+'
   * when there is one and gives it back only if the rest then fails.
   */
  function AfterX(u: string): (r: Option<(bool, string, string)>)
    ensures r.Some? ==> IsCoefficient(r.value.1) && IsSignedInteger(r.value.2)
    ensures r.Some? ==> PlusText(r.value.0) + (r.value.1 + ("y<=" + r.value.2)) <= u
  {
    var withPlus := if |u| > 0 && u[0] == '+' then AltTail(u[1..]) else None;
    if withPlus.Some? then
      PrefixThen("+", withPlus.value.0 + ("y<=" + withPlus.value.1), u);
      Some((true, withPlus.value.0, withPlus.value.1))
    else
      match AltTail(u)
      case Some((b, rhs)) => Some((false, b, rhs))
      case None => None
  }

  /**
   * `re.match(r'([+-]?\d*)x\+?([+-]?\d*)y<=([+-]?\d+)', s)`: anchored at the
   * start, not at the end.
   */
  function MatchAlt(s: string): (r: Option<AltGroups>)
    ensures r.Some? ==> IsCoefficient(r.value.a) && IsCoefficient(r.value.b) && IsSignedInteger(r.value.rhs)
    ensures r.Some? ==> AltText(r.value) <= s
  {
    var a := LeadingCoefficient(s);
    if |a| < |s| && s[|a|] == 'x' then
      match AfterX(s[|a| + 1..])
      case Some((plus, b, rhs)) =>
        var m := AltGroups(a, plus, b, rhs);
        MatchAltPrefix(s, a, PlusText(plus) + (b + ("y<=" + rhs)));
        Some(m)
      case None => None
    else None
  }

  lemma MatchAltPrefix(s: string, a: string, tail: string)
    requires a <= s && |a| < |s| && s[|a|] == 'x' && tail <= s[|a| + 1..]
    ensures a + ("x" + tail) <= s
  {
    assert s[|a|..][1..] == s[|a| + 1..];
    PrefixThen("x", tail, s[|a|..]);
    PrefixThen(a, "x" + tail, s);
  }

  /**
   * `parse_constraint(constraint)`: `None` for empty text; otherwise, with the
   * spaces removed, the three searches when all of them match, else the
   * fallback pattern, else `None`. `(a, b, rhs)` are the coefficients of x and
   * y and the right-hand side.
   */
  function ParseConstraint(constraint: string): (r: Option<(int, int, int)>)
    ensures r.Some? ==> var s := RemoveSpaces(constraint);
      'x' in s && 'y' in s && HasRightHandSide(s)
  {
    if constraint == "" then None
    else
      var s := RemoveSpaces(constraint);
      var mx, my, mr := Search(s, 'x'), Search(s, 'y'), SearchRhs(s);
      if mx.Some? && my.Some? && mr.Some? then
        Some((CoefficientValue(mx.value.group), CoefficientValue(my.value.group), IntegerValue(mr.value)))
      else
        match MatchAlt(s)
        case Some(m) =>
          AltTextShape(m, s);
          Some((CoefficientValue(m.a), CoefficientValue(m.b), IntegerValue(m.rhs)))
        case None => None
  }

  /** Text the fallback pattern reads from holds an x, a y, and "<=" followed by a signed integer. */
  lemma AltTextShape(m: AltGroups, s: string)
    requires IsSignedInteger(m.rhs) && AltText(m) <= s
    ensures 'x' in s && 'y' in s && HasRightHandSide(s)
  {
    var text := AltText(m);
    var y := |m.a| + 1 + |PlusText(m.plus)| + |m.b|;
    var k := y + 3 + |m.rhs|;
    assert text[|m.a|] == 'x' && text[y] == 'y' && text[y + 1] == '<' && text[y + 2] == '=';
    assert text[y + 3..k] == m.rhs;
    assert s[|m.a|] == 'x' && s[y] == 'y' && s[y + 1] == '<' && s[y + 2] == '=';
    assert s[y + 3..k] == m.rhs;
    assert LessEqualInteger(s, y + 1, k);
  }

  /**
   * `parse_objective(obj_str)`: `None` only for empty text; a variable whose
   * term is missing gets coefficient 0.
   */
  function ParseObjective(objective: string): (r: Option<(int, int)>)
    ensures r.None? <==> objective == ""
  {
    if objective == "" then None
    else
      var s := RemoveSpaces(objective);
      var mx, my := Search(s, 'x'), Search(s, 'y');
      Some((if mx.Some? then CoefficientValue(mx.value.group) else 0,
            if my.Some? then CoefficientValue(my.value.group) else 0))
  }

  /** A character that is neither a digit nor a sign never occurs in a coefficient. */
  lemma CoefficientExcludes(g: string, ch: char)
    requires IsCoefficient(g) && !IsDigit(ch) && !IsSign(ch)
    ensures ch !in g
  {
    if ch in g {
      var i := IndexOf(g, ch);
      CoefficientChars(g, i);
    }
  }

  /** In `<a>x...` the search for x finds the coefficient a written first. */
  lemma SearchLeading(ga: string, rest: string)
    requires IsCoefficient(ga)
    ensures var f := Search(ga + "x" + rest, 'x');
      f.Some? && f.value.group == ga
  {
    var s := ga + "x" + rest;
    CoefficientExcludes(ga, 'x');
    assert s[..|ga|] == ga && s[0..|ga|] == ga;
    SearchAt(s, 'x', |ga|);
    SearchStartsBy(s, 'x', 0, |ga|);
  }

  /**
   * The search for y, when the first y at q is preceded by the coefficient
   * b, itself preceded by an x at xpos and perhaps a '+'.
   */
  lemma SearchSecondAt(s: string, xpos: nat, k: nat, gb: string)
    requires xpos < k && k + |gb| < |s| && s[xpos] == 'x'
    requires k == xpos + 1 || (k == xpos + 2 && s[xpos + 1] == '+')
    requires IsCoefficient(gb) && s[k..k + |gb|] == gb
    requires s[k + |gb|] == 'y' && 'y' !in s[..k + |gb|]
    ensures var f := Search(s, 'y');
      f.Some? && IsCoefficient(f.value.group) && CoefficientValue(f.value.group) == CoefficientValue(gb)
  {
    var q := k + |gb|;
    SearchWithin(s, 'y', k, q);
    FoundAfterX(s, xpos, k, gb, Search(s, 'y').value);
  }

  /** A group found between the x and the end of b is worth b. */
  lemma FoundAfterX(s: string, xpos: nat, k: nat, gb: string, f: Found)
    requires xpos < k && k + |gb| <= |s| && s[xpos] == 'x'
    requires k == xpos + 1 || (k == xpos + 2 && s[xpos + 1] == '+')
    requires IsCoefficient(gb) && s[k..k + |gb|] == gb
    requires f.start <= k && f.start + |f.group| == k + |gb| && f.group == s[f.start..k + |gb|] && IsCoefficient(f.group)
    ensures CoefficientValue(f.group) == CoefficientValue(gb)
  {
    CoefficientAfterX(s, xpos, k, gb, f.start);
  }

  /** Any coefficient ending where b ends, and starting after the x, is worth b. */
  lemma CoefficientAfterX(s: string, xpos: nat, k: nat, gb: string, start: nat)
    requires xpos < k && k + |gb| <= |s| && s[xpos] == 'x'
    requires k == xpos + 1 || (k == xpos + 2 && s[xpos + 1] == '+')
    requires IsCoefficient(gb) && s[k..k + |gb|] == gb
    requires start <= k && IsCoefficient(s[start..k + |gb|])
    ensures CoefficientValue(s[start..k + |gb|]) == CoefficientValue(gb)
  {
    var g := s[start..k + |gb|];
    CoefficientExcludes(g, 'x');
    forall i | start <= i < k + |gb|
      ensures s[i] != 'x'
    {
      assert g[i - start] == s[i];
    }
    if start < k {
      assert g == "+" + gb;
      if !AllDigits(gb) {
        CoefficientTail(g, 1);
      }
      PlusCoefficientValue(gb);
    }
  }

  /**
   * In `...x[+]<b>y...` the search for y finds a group worth b: either b
   * itself or, when b is unsigned and a '+' separates it from x, "+" + b.
   */
  lemma SearchSecond(pre: string, plus: bool, gb: string, rest: string)
    requires |pre| > 0 && pre[|pre| - 1] == 'x' && 'y' !in pre && IsCoefficient(gb)
    ensures var f := Search(pre + PlusText(plus) + gb + "y" + rest, 'y');
      f.Some? && IsCoefficient(f.value.group) && CoefficientValue(f.value.group) == CoefficientValue(gb)
  {
    var s := pre + PlusText(plus) + gb + "y" + rest;
    var k := |pre| + |PlusText(plus)|;
    var q := k + |gb|;
    CoefficientExcludes(gb, 'y');
    assert s[..q] == pre + PlusText(plus) + gb;
    assert s[q] == 'y';
    assert s[k..q] == gb;
    SearchSecondAt(s, |pre| - 1, k, gb);
  }

  /** A signed integer ends in a digit. */
  lemma SignedIntegerLast(g: string)
    requires IsSignedInteger(g)
    ensures IsDigit(g[|g| - 1])
  {
    if !AllDigits(g) {
      assert g[1..][|g| - 2] == g[|g| - 1];
    }
  }

  /** `<=<rhs>` at the very end is what the right-hand-side search finds. */
  lemma SearchRhsEnd(pre: string, rhs: string)
    requires IsSignedInteger(rhs)
    ensures SearchRhs(pre + "<=" + rhs) == Some(rhs)
  {
    var s := pre + "<=" + rhs;
    SignedIntegerLast(rhs);
    assert s[|s| - 1] == rhs[|rhs| - 1];
    assert StripFinalNewline(s) == s;
    assert s[|pre| + 2..] == rhs;
    assert RhsAt(s, |pre|);
    var j := RhsFrom(s, 0).value;
    RhsUnique(s, j, |pre|);
  }

  /** Removing spaces before parsing makes them irrelevant. */
  lemma ParseConstraintSpaces(c: string)
    ensures ParseConstraint(c) == ParseConstraint(RemoveSpaces(c))
  {
    var s := RemoveSpaces(c);
    if s == "" {
      assert Search(s, 'x').None?;
    }
  }

  /** Every character of the canonical text `<a>x[+]<b>y<=<rhs>` is spaceless. */
  lemma AltTextNoSpace(m: AltGroups)
    requires IsCoefficient(m.a) && IsCoefficient(m.b) && IsCoefficient(m.rhs)
    ensures ' ' !in AltText(m)
  {
    CoefficientExcludes(m.a, ' ');
    CoefficientExcludes(m.b, ' ');
    CoefficientExcludes(m.rhs, ' ');
  }

  /** When all three searches match on spaceless text, their groups decide the result. */
  lemma ParseBySearches(c: string, a: int, b: int, rhs: string)
    requires c != "" && ' ' !in c
    requires var f := Search(c, 'x'); f.Some? && CoefficientValue(f.value.group) == a
    requires var f := Search(c, 'y'); f.Some? && CoefficientValue(f.value.group) == b
    requires SearchRhs(c) == Some(rhs)
    ensures ParseConstraint(c) == Some((a, b, IntegerValue(rhs)))
  {
    assert RemoveSpaces(c) == c;
  }

  /**
   * A constraint written `<a>x[+]<b>y<=<rhs>` parses to the values of its
   * three groups, through the three searches.
   */
  lemma {:induction false} ConstraintRoundTrip(m: AltGroups)
    requires IsCoefficient(m.a) && IsCoefficient(m.b) && IsSignedInteger(m.rhs)
    ensures ParseConstraint(AltText(m)) == Some((CoefficientValue(m.a), CoefficientValue(m.b), IntegerValue(m.rhs)))
  {
    AltTextNoSpace(m);
    AltTextSearchX(m);
    AltTextSearchY(m);
    AltTextSearchRhs(m);
    ParseBySearches(AltText(m), CoefficientValue(m.a), CoefficientValue(m.b), m.rhs);
  }

  lemma AltTextSearchX(m: AltGroups)
    requires IsCoefficient(m.a)
    ensures var f := Search(AltText(m), 'x'); f.Some? && CoefficientValue(f.value.group) == CoefficientValue(m.a)
  {
    assert AltText(m) == m.a + "x" + (PlusText(m.plus) + (m.b + ("y<=" + m.rhs)));
    SearchLeading(m.a, PlusText(m.plus) + (m.b + ("y<=" + m.rhs)));
  }

  lemma AltTextSearchY(m: AltGroups)
    requires IsCoefficient(m.a) && IsCoefficient(m.b)
    ensures var f := Search(AltText(m), 'y'); f.Some? && CoefficientValue(f.value.group) == CoefficientValue(m.b)
  {
    CoefficientExcludes(m.a, 'y');
    assert AltText(m) == m.a + "x" + PlusText(m.plus) + m.b + "y" + ("<=" + m.rhs);
    SearchSecond(m.a + "x", m.plus, m.b, "<=" + m.rhs);
  }

  lemma AltTextSearchRhs(m: AltGroups)
    requires IsSignedInteger(m.rhs)
    ensures SearchRhs(AltText(m)) == Some(m.rhs)
  {
    var pre := m.a + "x" + (PlusText(m.plus) + (m.b + "y"));
    assert AltText(m) == pre + "<=" + m.rhs;
    SearchRhsEnd(pre, m.rhs);
  }

  /** An objective written `<a>x[+]<b>y` parses to the values of its two groups. */
  lemma {:induction false} ObjectiveRoundTrip(ga: string, plus: bool, gb: string)
    requires IsCoefficient(ga) && IsCoefficient(gb)
    ensures ParseObjective(ga + "x" + PlusText(plus) + gb + "y") == Some((CoefficientValue(ga), CoefficientValue(gb)))
  {
    var o := ga + "x" + PlusText(plus) + gb + "y";
    CoefficientExcludes(ga, ' ');
    CoefficientExcludes(gb, ' ');
    CoefficientExcludes(ga, 'y');
    assert ' ' !in o;
    assert o == ga + "x" + (PlusText(plus) + gb + "y");
    SearchLeading(ga, PlusText(plus) + gb + "y");
    assert o == (ga + "x") + PlusText(plus) + gb + "y" + "";
    SearchSecond(ga + "x", plus, gb, "");
  }

  /** A variable that does not occur in the objective gets coefficient 0. */
  lemma ObjectiveMissingTerms(objective: string)
    requires objective != ""
    ensures 'x' !in objective ==> ParseObjective(objective).value.0 == 0
    ensures 'y' !in objective ==> ParseObjective(objective).value.1 == 0
  {
    var s := RemoveSpaces(objective);
    SearchFirstOccurrence(s, 'x');
    SearchFirstOccurrence(s, 'y');
  }

  /** The fallback's tail, from the greedy groups it reads. */
  lemma AltTailBy(u: string, gb: string, rhs: string)
    requires LeadingCoefficient(u) == gb && |gb| + 3 <= |u|
    requires u[|gb|] == 'y' && u[|gb| + 1] == '<' && u[|gb| + 2] == '='
    requires LeadingCoefficient(u[|gb| + 3..]) == rhs && IsSignedInteger(rhs)
    ensures AltTail(u) == Some((gb, rhs))
  {
    assert u[|gb|..][3..] == u[|gb| + 3..];
  }

  /** The fallback's tail takes b and the right-hand side when a non-digit follows it. */
  lemma AltTailComplete(gb: string, rhs: string, junk: string)
    requires IsCoefficient(gb) && IsSignedInteger(rhs) && |junk| > 0 && !IsDigit(junk[0])
    ensures AltTail(gb + ("y<=" + (rhs + junk))) == Some((gb, rhs))
  {
    var v := rhs + junk;
    var w := "y<=" + v;
    var u := gb + w;
    LeadingCoefficientOf(gb, w);
    LeadingCoefficientOf(rhs, junk);
    assert u[|gb| + 3..] == v;
    AltTailBy(u, gb, rhs);
  }

  /**
   * After the x, the fallback reads groups worth b whether or not the '+'
   * is written, and whether or not b itself carries the '+'.
   */
  lemma AfterXComplete(plus: bool, gb: string, rhs: string, junk: string)
    requires IsCoefficient(gb) && IsSignedInteger(rhs) && |junk| > 0 && !IsDigit(junk[0])
    ensures var r := AfterX(PlusText(plus) + (gb + ("y<=" + (rhs + junk))));
      r.Some? && CoefficientValue(r.value.1) == CoefficientValue(gb) && r.value.2 == rhs
  {
    var v := gb + ("y<=" + (rhs + junk));
    var u := PlusText(plus) + v;
    assert !plus ==> u == v;
    if plus {
      assert u[1..] == v;
      AltTailComplete(gb, rhs, junk);
      AfterXPlus(u, gb, rhs);
    } else if |u| > 0 && u[0] == '+' {
      assert gb != "" && gb == "+" + gb[1..];
      assert u[1..] == gb[1..] + ("y<=" + (rhs + junk));
      AltTailComplete(gb[1..], rhs, junk);
      PlusCoefficientValue(gb[1..]);
      AfterXPlus(u, gb[1..], rhs);
    } else {
      AltTailComplete(gb, rhs, junk);
      AfterXNoPlus(u, gb, rhs);
    }
  }

  lemma AfterXPlus(u: string, gb: string, rhs: string)
    requires |u| > 0 && u[0] == '+' && AltTail(u[1..]) == Some((gb, rhs))
    ensures AfterX(u) == Some((true, gb, rhs))
  {
  }

  lemma AfterXNoPlus(u: string, gb: string, rhs: string)
    requires !(|u| > 0 && u[0] == '+') && AltTail(u) == Some((gb, rhs))
    ensures AfterX(u) == Some((false, gb, rhs))
  {
  }

  /** The fallback, from the greedy first group and what follows the x. */
  lemma MatchAltBy(s: string, a: string, plus: bool, gb: string, rhs: string)
    requires LeadingCoefficient(s) == a && |a| < |s| && s[|a|] == 'x'
    requires AfterX(s[|a| + 1..]) == Some((plus, gb, rhs))
    ensures MatchAlt(s) == Some(AltGroups(a, plus, gb, rhs))
  {
  }

  /** The start-anchored fallback reads `<a>x[+]<b>y<=<rhs>` followed by a non-digit. */
  lemma MatchAltComplete(m: AltGroups, junk: string)
    requires IsCoefficient(m.a) && IsCoefficient(m.b) && IsSignedInteger(m.rhs)
    requires |junk| > 0 && !IsDigit(junk[0])
    ensures var r := MatchAlt(AltText(m) + junk);
      && r.Some?
      && CoefficientValue(r.value.a) == CoefficientValue(m.a)
      && CoefficientValue(r.value.b) == CoefficientValue(m.b)
      && r.value.rhs == m.rhs
  {
    var tail := PlusText(m.plus) + (m.b + ("y<=" + (m.rhs + junk)));
    assert AltText(m) + junk == m.a + ("x" + tail);
    AfterXComplete(m.plus, m.b, m.rhs, junk);
    MatchAltParts(m.a, tail);
  }

  /** The fallback reads a leading coefficient, an x, and whatever `AfterX` reads from the rest. */
  lemma MatchAltParts(a: string, tail: string)
    requires IsCoefficient(a) && AfterX(tail).Some?
    ensures var r := AfterX(tail).value;
      MatchAlt(a + ("x" + tail)) == Some(AltGroups(a, r.0, r.1, r.2))
  {
    var s := a + ("x" + tail);
    LeadingCoefficientOf(a, "x" + tail);
    assert s[|a| + 1..] == tail;
    var r := AfterX(tail).value;
    MatchAltBy(s, a, r.0, r.1, r.2);
  }

  /**
   * `<=([+-]?\d+)$` cannot match text whose last digit is followed by a
   * non-digit that is neither a newline nor followed by an '='.
   */
  lemma NoRhsBeforeJunk(p: string, junk: string)
    requires |p| > 0 && IsDigit(p[|p| - 1])
    requires |junk| > 0 && !IsDigit(junk[0]) && junk[0] != '\n' && '=' !in junk
    ensures SearchRhs(p + junk).None?
  {
    var s := p + junk;
    var t := StripFinalNewline(s);
    var p0 := |p|;
    assert p0 < |t| && t[p0] == junk[0] && t[p0 - 1] == p[p0 - 1];
    forall j: nat
      ensures !RhsAt(t, j)
    {
      if j + 2 < p0 {
        NotCoefficientInside(t[j + 2..], p0 - j - 2);
      }
    }
  }

  /** When the right-hand-side search fails on spaceless text, the fallback decides. */
  lemma ParseByFallback(c: string, m: AltGroups)
    requires c != "" && ' ' !in c && SearchRhs(c).None? && MatchAlt(c) == Some(m)
    ensures ParseConstraint(c) == Some((CoefficientValue(m.a), CoefficientValue(m.b), IntegerValue(m.rhs)))
  {
    assert RemoveSpaces(c) == c;
  }

  /**
   * Text after the right-hand side defeats the `$` of the search, and the
   * start-anchored fallback still reads the same three values.
   */
  lemma {:induction false} ConstraintTrailingText(m: AltGroups, junk: string)
    requires IsCoefficient(m.a) && IsCoefficient(m.b) && IsSignedInteger(m.rhs)
    requires |junk| > 0 && !IsDigit(junk[0]) && junk[0] != '\n' && '=' !in junk && ' ' !in junk
    ensures ParseConstraint(AltText(m) + junk) == Some((CoefficientValue(m.a), CoefficientValue(m.b), IntegerValue(m.rhs)))
  {
    var s := AltText(m) + junk;
    AltTextNoSpace(m);
    SignedIntegerLast(m.rhs);
    assert AltText(m)[|AltText(m)| - 1] == m.rhs[|m.rhs| - 1];
    NoRhsBeforeJunk(AltText(m), junk);
    MatchAltComplete(m, junk);
    ParseByFallback(s, MatchAlt(s).value);
  }

  /** Five pieces without spaces, separated by single spaces, lose exactly those spaces. */
  lemma RemoveSpacesBetween(p0: string, p1: string, p2: string, p3: string, p4: string)
    requires ' ' !in p0 && ' ' !in p1 && ' ' !in p2 && ' ' !in p3 && ' ' !in p4
    ensures RemoveSpaces(p0 + (" " + (p1 + (" " + (p2 + (" " + (p3 + (" " + p4)))))))) == p0 + (p1 + (p2 + (p3 + p4)))
  {
    RemoveSpacesSkip(p0, p1 + (" " + (p2 + (" " + (p3 + (" " + p4))))));
    RemoveSpacesSkip(p1, p2 + (" " + (p3 + (" " + p4))));
    RemoveSpacesSkip(p2, p3 + (" " + p4));
    RemoveSpacesSkip(p3, p4);
  }

  /** "2x + 3y <= 8" without its spaces is the canonical `2x+3y<=8`. */
  lemma SpacedExampleText()
    ensures RemoveSpaces("2x + 3y <= 8") == AltText(AltGroups("2", true, "3", "8"))
  {
    SpacedExamplePieces();
    RemoveSpacesBetween("2x", "+", "3y", "<=", "8");
    SpacedExampleJoined();
  }

  lemma SpacedExamplePieces()
    ensures "2x + 3y <= 8" == "2x" + (" " + ("+" + (" " + ("3y" + (" " + ("<=" + (" " + "8")))))))
  {
  }

  lemma SpacedExampleJoined()
    ensures "2x" + ("+" + ("3y" + ("<=" + "8"))) == AltText(AltGroups("2", true, "3", "8"))
  {
  }

  /** The worked constraint "2x + 3y <= 8". */
  lemma ExampleConstraintSpaced()
    ensures ParseConstraint("2x + 3y <= 8") == Some((2, 3, 8))
  {
    var m := AltGroups("2", true, "3", "8");
    SpacedExampleText();
    ExampleValues();
    ParseConstraintSpaces("2x + 3y <= 8");
    ConstraintRoundTrip(m);
  }

  lemma ExampleValues()
    ensures IsCoefficient("2") && CoefficientValue("2") == 2
    ensures IsCoefficient("3") && CoefficientValue("3") == 3
    ensures IsSignedInteger("8") && IntegerValue("8") == 8
    ensures IsCoefficient("") && CoefficientValue("") == 1
    ensures IsCoefficient("-") && CoefficientValue("-") == -1
    ensures IsSignedInteger("5") && IntegerValue("5") == 5
  {
  }

  /** "x - y <= 5" without its spaces is the canonical `x-y<=5`. */
  lemma UnitExampleText()
    ensures RemoveSpaces("x - y <= 5") == AltText(AltGroups("", false, "-", "5"))
  {
    UnitExamplePieces();
    RemoveSpacesBetween("x", "-", "y", "<=", "5");
    UnitExampleJoined();
  }

  lemma UnitExamplePieces()
    ensures "x - y <= 5" == "x" + (" " + ("-" + (" " + ("y" + (" " + ("<=" + (" " + "5")))))))
  {
  }

  lemma UnitExampleJoined()
    ensures "x" + ("-" + ("y" + ("<=" + "5"))) == AltText(AltGroups("", false, "-", "5"))
  {
  }

  /** A bare x and a lone '-' before y: "x - y <= 5". */
  lemma ExampleConstraintUnitCoefficients()
    ensures ParseConstraint("x - y <= 5") == Some((1, -1, 5))
  {
    var m := AltGroups("", false, "-", "5");
    UnitExampleText();
    ExampleValues();
    ParseConstraintSpaces("x - y <= 5");
    ConstraintRoundTrip(m);
  }

  /** Text after the right-hand side: "2x+3y<=8abc" still reads (2, 3, 8). */
  lemma ExampleConstraintTrailing()
    ensures ParseConstraint("2x+3y<=8abc") == Some((2, 3, 8))
  {
    var m := AltGroups("2", true, "3", "8");
    assert "2x+3y<=8abc" == AltText(m) + "abc";
    ExampleValues();
    ConstraintTrailingText(m, "abc");
  }

  /** A strict inequality does not parse: "x+y<10". */
  lemma ExampleConstraintStrict(c: string)
    requires c == "x+y<10"
    ensures ParseConstraint(c) == None
  {
    assert ' ' !in c && '=' !in c;
    assert RemoveSpaces(c) == c;
  }

  /** Without a y there is nothing to read: "2x<=8". */
  lemma ExampleConstraintMissingY(c: string)
    requires c == "2x<=8"
    ensures ParseConstraint(c) == None
  {
    assert ' ' !in c && 'y' !in c;
    assert RemoveSpaces(c) == c;
  }

  /** "<=" must be followed by an integer: "x+y<=a". */
  lemma ExampleConstraintNoRightHandSide(c: string)
    requires c == "x+y<=a"
    ensures ParseConstraint(c) == None
  {
    assert ' ' !in c;
    assert RemoveSpaces(c) == c;
    assert forall i :: 0 <= i < |c| ==> !IsDigit(c[i]);
    forall j: int, k: int
      ensures !LessEqualInteger(c, j, k)
    {
      if LessEqualInteger(c, j, k) {
        assert c[j + 2..k][k - j - 3] == c[k - 1];
        SignedIntegerLast(c[j + 2..k]);
      }
    }
  }
}
