/**
 * Placeholders in redirect and rewrite destinations: `replace_placeholders` (src/redirects.rs). The replacement
 * runs an Aho-Corasick search with standard semantics over the patterns `$0`, `$1`, and so on.
 */
module Substitution {
  import opened Wrappers
  import opened Bytes

  predicate IsDigit(c: char) {
    '0' <= c <= '9'
  }

  function DigitValue(c: char): nat
    requires IsDigit(c)
  {
    c as int - '0' as int
  }

  function DigitChar(d: nat): (c: char)
    requires d < 10
    ensures IsDigit(c) && DigitValue(c) == d
  {
    (d + '0' as int) as char
  }

  function Decimal(i: nat): (s: string)
    ensures s != "" && forall c <- s :: IsDigit(c)
    ensures i < 10 <==> |s| == 1
    ensures i < 10 ==> s == [DigitChar(i)]
  {
    if i < 10 then [DigitChar(i)] else Decimal(i / 10) + [DigitChar(i % 10)]
  }

  function Pattern(i: nat): (p: string)
    ensures |p| >= 2 && p[0] == '$' && IsDigit(p[1])
    ensures i < 10 <==> |p| == 2
  {
    "$" + Decimal(i)
  }

  // ----- The search -----

  /** Pattern `i` occurs in `dest` ending at `end`, not starting before `from`. */
  predicate Ends(dest: string, i: nat, from: nat, end: nat) {
    end <= |dest| && from + |Pattern(i)| <= end && dest[end - |Pattern(i)|..end] == Pattern(i)
  }

  /** The first of the patterns numbered `i` to `n - 1` that ends there. */
  function EndingAt(dest: string, n: nat, from: nat, end: nat, i: nat): (r: Option<nat>)
    requires i <= n
    ensures r.Some? ==> i <= r.value < n && Ends(dest, r.value, from, end)
    ensures r.None? ==> forall j | i <= j < n :: !Ends(dest, j, from, end)
    decreases n - i
  {
    if i == n then None
    else if Ends(dest, i, from, end) then Some(i)
    else EndingAt(dest, n, from, end, i + 1)
  }

  datatype Match = Match(start: nat, end: nat, pattern: nat)

  /** Standard semantics: the match that ends first. */
  function Search(dest: string, n: nat, from: nat, end: nat): (r: Option<Match>)
    ensures r.Some? ==> r.value.pattern < n && end <= r.value.end && Ends(dest, r.value.pattern, from, r.value.end)
                        && r.value.start == r.value.end - |Pattern(r.value.pattern)|
    decreases |dest| + 1 - end
  {
    if end > |dest| then None
    else
      match EndingAt(dest, n, from, end, 0)
      case Some(i) => Some(Match(end - |Pattern(i)|, end, i))
      case None => Search(dest, n, from, end + 1)
  }

  function ReplaceFrom(dest: string, captures: seq<string>, from: nat): string
    requires from <= |dest|
    decreases |dest| - from
  {
    match Search(dest, |captures|, from, from)
    case None => dest[from..]
    case Some(m) => dest[from..m.start] + captures[m.pattern] + ReplaceFrom(dest, captures, m.end)
  }

  datatype ReplaceError = NoMatch

  /** `groups` are the captures of the request path, unset groups being `None`; no match at all is an error. */
  function ReplacePlaceholders(groups: Option<seq<Option<string>>>, dest: string): Result<string, ReplaceError> {
    match groups
    case None => Err(NoMatch)
    case Some(gs) => Ok(ReplaceFrom(dest, Captures(gs), 0))
  }

  function Captures(groups: seq<Option<string>>): (r: seq<string>)
    ensures |r| == |groups|
  {
    seq(|groups|, i requires 0 <= i < |groups| => if groups[i].Some? then groups[i].value else "")
  }

  // ----- The meaning: tokens -----

  datatype Token = Literal(c: char) | Group(d: nat)

  predicate TokenAhead(s: string, n: nat) {
    |s| >= 2 && s[0] == '$' && IsDigit(s[1]) && DigitValue(s[1]) < n
  }

  /** A destination is literals and one-digit group references; this does not look at any capture. */
  function Tokens(s: string, n: nat): (r: seq<Token>)
    ensures forall t <- r :: t.Group? ==> t.d < n
  {
    if s == "" then []
    else if TokenAhead(s, n) then [Group(DigitValue(s[1]))] + Tokens(s[2..], n)
    else [Literal(s[0])] + Tokens(s[1..], n)
  }

  function TextOf(t: Token, captures: seq<string>): string
    requires t.Group? ==> t.d < |captures|
  {
    if t.Literal? then [t.c] else captures[t.d]
  }

  function Expand(tokens: seq<Token>, captures: seq<string>): string
    requires forall t <- tokens :: t.Group? ==> t.d < |captures|
  {
    if tokens == [] then ""
    else TextOf(tokens[0], captures) + Expand(tokens[1..], captures)
  }

  function Substitute(s: string, captures: seq<string>): string {
    Expand(Tokens(s, |captures|), captures)
  }

  // ----- The search finds exactly the tokens -----

  lemma EndsBeginsToken(dest: string, n: nat, i: nat, from: nat, end: nat)
    requires i < n && Ends(dest, i, from, end)
    ensures var start := end - |Pattern(i)|; TokenAhead(dest[start..], n)
    ensures i < 10 ==> dest[end - 1] == DigitChar(i)
  {
    var start := end - |Pattern(i)|;
    assert dest[start..end][0] == dest[start] && dest[start..end][1] == dest[start + 1];
    if i < 10 {
      assert Pattern(i)[1] == DigitChar(i);
    } else {
      assert DigitValue(Pattern(i)[1]) < 10;
    }
  }

  lemma TokenEnds(dest: string, n: nat, from: nat)
    requires from <= |dest| && TokenAhead(dest[from..], n)
    ensures Ends(dest, DigitValue(dest[from + 1]), from, from + 2)
  {
    var d := DigitValue(dest[from + 1]);
    assert dest[from..][1] == dest[from + 1];
    assert dest[from..from + 2] == ['$', dest[from + 1]] == Pattern(d);
  }

  /** At a token the search stops right behind it, with its group. */
  lemma SearchAtToken(dest: string, n: nat, from: nat)
    requires from <= |dest| && TokenAhead(dest[from..], n)
    ensures Search(dest, n, from, from) == Some(Match(from, from + 2, DigitValue(dest[from + 1])))
  {
    TokenEnds(dest, n, from);
    var d := DigitValue(dest[from + 1]);
    assert dest[from..][1] == dest[from + 1] && d < n;
    var found := EndingAt(dest, n, from, from + 2, 0);
    assert found.Some?;
    EndsBeginsToken(dest, n, found.value, from, from + 2);
    assert Search(dest, n, from, from) == Search(dest, n, from, from + 1);
    assert Search(dest, n, from, from + 1) == Search(dest, n, from, from + 2);
  }

  lemma EndsLater(dest: string, n: nat, i: nat, from: nat, end: nat)
    requires i < n && from < |dest| && !TokenAhead(dest[from..], n)
    ensures Ends(dest, i, from, end) <==> Ends(dest, i, from + 1, end)
  {
    if Ends(dest, i, from, end) {
      EndsBeginsToken(dest, n, i, from, end);
    }
  }

  /** Where no token begins the search gives what it gives one character later. */
  lemma {:induction false} SearchPastLiteral(dest: string, n: nat, from: nat, end: nat)
    requires from < |dest| && !TokenAhead(dest[from..], n)
    ensures Search(dest, n, from, end) == Search(dest, n, from + 1, end)
    decreases |dest| + 1 - end
  {
    hide Ends, TokenAhead;
    if end <= |dest| {
      forall i | 0 <= i < n
        ensures Ends(dest, i, from, end) <==> Ends(dest, i, from + 1, end)
      {
        EndsLater(dest, n, i, from, end);
      }
      SameEnding(dest, n, from, end, 0);
      SearchPastLiteral(dest, n, from, end + 1);
    }
  }

  lemma {:induction false} SameEnding(dest: string, n: nat, from: nat, end: nat, i: nat)
    requires i <= n && forall j | 0 <= j < n :: Ends(dest, j, from, end) <==> Ends(dest, j, from + 1, end)
    ensures EndingAt(dest, n, from, end, i) == EndingAt(dest, n, from + 1, end, i)
    decreases n - i
  {
    if i < n {
      SameEnding(dest, n, from, end, i + 1);
    }
  }

  lemma ReplacePastLiteral(dest: string, captures: seq<string>, from: nat)
    requires from < |dest| && !TokenAhead(dest[from..], |captures|)
    ensures ReplaceFrom(dest, captures, from) == [dest[from]] + ReplaceFrom(dest, captures, from + 1)
  {
    var n := |captures|;
    SearchPastLiteral(dest, n, from, from);
    assert Search(dest, n, from + 1, from) == Search(dest, n, from + 1, from + 1);
    match Search(dest, n, from, from)
    case None =>
      assert dest[from..] == [dest[from]] + dest[from + 1..];
    case Some(m) =>
      assert from + 1 <= m.start;
      assert dest[from..m.start] == [dest[from]] + dest[from + 1..m.start];
  }

  lemma ReplaceAtToken(dest: string, captures: seq<string>, from: nat)
    requires from <= |dest| && TokenAhead(dest[from..], |captures|)
    ensures ReplaceFrom(dest, captures, from) == captures[DigitValue(dest[from + 1])] + ReplaceFrom(dest, captures, from + 2)
  {
    SearchAtToken(dest, |captures|, from);
    assert dest[from..][1] == dest[from + 1];
    assert dest[from..from] == "";
  }

  lemma ReplaceAtEnd(dest: string, captures: seq<string>)
    ensures ReplaceFrom(dest, captures, |dest|) == ""
  {
    var n := |captures|;
    assert EndingAt(dest, n, |dest|, |dest|, 0).None?;
    assert Search(dest, n, |dest|, |dest|) == Search(dest, n, |dest|, |dest| + 1) == None;
  }

  lemma {:induction false} ReplaceIsSubstitute(dest: string, captures: seq<string>, from: nat)
    requires from <= |dest|
    ensures ReplaceFrom(dest, captures, from) == Substitute(dest[from..], captures)
    decreases |dest| - from
  {
    hide ReplaceFrom, Search, EndingAt;
    var rest := dest[from..];
    if rest == "" {
      ReplaceAtEnd(dest, captures);
    } else if TokenAhead(rest, |captures|) {
      ReplaceAtToken(dest, captures, from);
      assert rest[2..] == dest[from + 2..] && rest[1] == dest[from + 1];
      ReplaceIsSubstitute(dest, captures, from + 2);
      ExpandOne(Group(DigitValue(rest[1])), Tokens(rest[2..], |captures|), captures);
    } else {
      ReplacePastLiteral(dest, captures, from);
      assert rest[1..] == dest[from + 1..];
      ReplaceIsSubstitute(dest, captures, from + 1);
      ExpandOne(Literal(rest[0]), Tokens(rest[1..], |captures|), captures);
    }
  }

  lemma ExpandOne(t: Token, tokens: seq<Token>, captures: seq<string>)
    requires t.Group? ==> t.d < |captures|
    requires forall t' <- tokens :: t'.Group? ==> t'.d < |captures|
    ensures Expand([t] + tokens, captures)
         == TextOf(t, captures) + Expand(tokens, captures)
  {
    assert ([t] + tokens)[1..] == tokens;
    assert t in [t] + tokens;
  }

  /**
   * Replacing is simultaneous substitution: the destination is cut into literals and one-digit references below
   * the number of groups, before any capture is looked at, and each reference becomes its capture. Inserted text
   * is never searched again. This holds for any number of groups; with at most ten it covers every group.
   */
  lemma ReplacementIsSimultaneous(groups: seq<Option<string>>, dest: string)
    ensures ReplacePlaceholders(Some(groups), dest) == Ok(Substitute(dest, Captures(groups)))
  {
    ReplaceIsSubstitute(dest, Captures(groups), 0);
    assert dest[0..] == dest;
  }

  // ----- Concatenation -----

  predicate SplitsToken(a: string, b: string, n: nat) {
    a != "" && b != "" && TokenAhead([a[|a| - 1], b[0]], n)
  }

  lemma {:induction false} TokensOfConcat(a: string, b: string, n: nat)
    requires !SplitsToken(a, b, n)
    ensures Tokens(a + b, n) == Tokens(a, n) + Tokens(b, n)
  {
    var s := a + b;
    if a == "" {
      assert s == b;
    } else if TokenAhead(a, n) {
      assert s[0] == a[0] && s[1] == a[1] && s[2..] == a[2..] + b;
      TokensOfConcat(a[2..], b, n);
      Assoc([Group(DigitValue(a[1]))], Tokens(a[2..], n), Tokens(b, n));
    } else {
      assert s[0] == a[0] && s[1..] == a[1..] + b;
      assert |a| >= 2 ==> s[1] == a[1];
      assert |a| == 1 && b != "" ==> s[1] == b[0];
      TokensOfConcat(a[1..], b, n);
      Assoc([Literal(a[0])], Tokens(a[1..], n), Tokens(b, n));
    }
  }

  lemma {:induction false} ExpandConcat(a: seq<Token>, b: seq<Token>, captures: seq<string>)
    requires forall t <- a :: t.Group? ==> t.d < |captures|
    requires forall t <- b :: t.Group? ==> t.d < |captures|
    ensures Expand(a + b, captures) == Expand(a, captures) + Expand(b, captures)
  {
    if a == [] {
      assert a + b == b;
    } else {
      assert (a + b)[1..] == a[1..] + b;
      ExpandConcat(a[1..], b, captures);
    }
  }

  lemma SubstituteConcat(a: string, b: string, captures: seq<string>)
    requires !SplitsToken(a, b, |captures|)
    ensures Substitute(a + b, captures) == Substitute(a, captures) + Substitute(b, captures)
  {
    TokensOfConcat(a, b, |captures|);
    ExpandConcat(Tokens(a, |captures|), Tokens(b, |captures|), captures);
  }

  lemma SubstituteLiteral(c: char, rest: string, captures: seq<string>)
    requires !TokenAhead([c] + rest, |captures|)
    ensures Substitute([c] + rest, captures) == [c] + Substitute(rest, captures)
  {
    assert ([c] + rest)[1..] == rest;
    ExpandOne(Literal(c), Tokens(rest, |captures|), captures);
  }

  lemma SubstituteGroup(d: nat, rest: string, captures: seq<string>)
    requires d < 10 && d < |captures|
    ensures Substitute(['$', DigitChar(d)] + rest, captures) == captures[d] + Substitute(rest, captures)
  {
    var s := ['$', DigitChar(d)] + rest;
    assert s[2..] == rest;
    ExpandOne(Group(d), Tokens(rest, |captures|), captures);
  }

  lemma Cancel(p: string, x: string, y: string, q: string)
    ensures p + x + q == p + y + q <==> x == y
  {
    if p + x + q == p + y + q {
      assert |x| == |y|;
      assert (p + x + q)[|p|..|p| + |x|] == x && (p + y + q)[|p|..|p| + |y|] == y;
    }
  }

  /**
   * Replacement distributes over concatenation exactly when the cut splits no reference, or the split
   * reference's capture happens to be its own text.
   */
  lemma DistributesIff(a: string, b: string, captures: seq<string>)
    ensures Substitute(a + b, captures) == Substitute(a, captures) + Substitute(b, captures)
       <==> !SplitsToken(a, b, |captures|) || captures[DigitValue(b[0])] == ['$', b[0]]
  {
    if !SplitsToken(a, b, |captures|) {
      SubstituteConcat(a, b, captures);
    } else {
      var head, rest, d := a[..|a| - 1], b[1..], DigitValue(b[0]);
      assert a == head + ['$'] && b == [b[0]] + rest && DigitChar(d) == b[0];
      assert a + b == head + (['$', b[0]] + rest);
      SubstituteConcat(head, ['$', b[0]] + rest, captures);
      SubstituteGroup(d, rest, captures);
      SubstituteConcat(head, "$", captures);
      SubstituteLiteral('$', "", captures);
      SubstituteLiteral(b[0], rest, captures);
      assert Substitute("", captures) == "";
      assert ['$'] + "" == "$";
      var sh, sr := Substitute(head, captures), Substitute(rest, captures);
      assert Substitute(a + b, captures) == sh + captures[d] + sr;
      assert Substitute(a, captures) + Substitute(b, captures) == sh + ['$', b[0]] + sr;
      Cancel(sh, captures[d], ['$', b[0]], sr);
    }
  }

  // ----- References by number -----

  lemma {:induction false} LiteralsStay(s: string, captures: seq<string>)
    requires '$' !in s
    ensures Substitute(s, captures) == s
  {
    if s != "" {
      LiteralsStay(s[1..], captures);
      assert s == [s[0]] + s[1..];
      SubstituteLiteral(s[0], s[1..], captures);
    }
  }

  /** The text of group `k`'s reference is read as its first digit's group and further digits. */
  lemma PatternIsRead(k: nat, captures: seq<string>)
    requires k < |captures|
    ensures var p := Pattern(k);
            DigitValue(p[1]) < |captures| && Substitute(p, captures) == captures[DigitValue(p[1])] + p[2..]
    ensures k < 10 ==> DigitValue(Pattern(k)[1]) == k && Pattern(k)[2..] == ""
  {
    var p := Pattern(k);
    var d, tail := DigitValue(p[1]), p[2..];
    assert DigitChar(d) == p[1];
    assert p == ['$', DigitChar(d)] + tail;
    assert forall c <- tail :: c in Decimal(k);
    SubstituteGroup(d, tail, captures);
    assert '$' !in tail;
    LiteralsStay(tail, captures);
  }

  /**
   * A reference to group `k`, wherever it stands in a destination, is replaced by that group's capture exactly
   * when `k` has one digit, or the capture happens to be the one of its first digit followed by the other digits.
   */
  lemma GroupIsReferencedIff(groups: seq<Option<string>>, a: string, k: nat, b: string)
    requires k < |groups|
    ensures var captures := Captures(groups);
            var first := DigitValue(Pattern(k)[1]);
            && first < |captures|
            && (ReplacePlaceholders(Some(groups), a + Pattern(k) + b)
                == Ok(Substitute(a, captures) + captures[k] + Substitute(b, captures))
                <==> k < 10 || captures[k] == captures[first] + Pattern(k)[2..])
  {
    hide Substitute;
    var captures, p := Captures(groups), Pattern(k);
    ReplacementIsSimultaneous(groups, a + p + b);
    PatternIsRead(k, captures);
    assert !SplitsToken(a, p, |captures|) && !SplitsToken(a + p, b, |captures|) by {
      assert p[|p| - 1] in Decimal(k);
    }
    SubstituteConcat(a, p, captures);
    SubstituteConcat(a + p, b, captures);
    Cancel(Substitute(a, captures), Substitute(p, captures), captures[k], Substitute(b, captures));
  }

  /** With more than ten groups, `$10` is read as `$1` followed by a zero. */
  lemma TenthGroupIsShadowed(groups: seq<Option<string>>)
    requires |groups| > 10
    ensures ReplacePlaceholders(Some(groups), "$10") == Ok(Captures(groups)[1] + "0")
  {
    PatternIsRead(10, Captures(groups));
    ReplacementIsSimultaneous(groups, "$10");
    assert Decimal(10) == Decimal(1) + "0";
    assert Pattern(10) == "$10";
  }

  // ----- What is inserted, told by the groups alone -----

  /** The text a request matched in a group; unset groups are empty. */
  function GroupText(groups: seq<Option<string>>, k: nat): string
    requires k < |groups|
  {
    match groups[k]
    case Some(text) => text
    case None => ""
  }

  /** `$` and a digit. */
  function Reference(k: nat): string
    requires k < 10
  {
    ['$', ('0' as int + k) as char]
  }

  /** Wherever a reference to a group stands, that group's text is inserted, and all else is as if it stood alone. */
  lemma ReferenceIsGroup(groups: seq<Option<string>>, a: string, k: nat, b: string)
    requires k < 10 && k < |groups|
    ensures ReplacePlaceholders(Some(groups), Reference(k)) == Ok(GroupText(groups, k))
    ensures var left, right := ReplacePlaceholders(Some(groups), a), ReplacePlaceholders(Some(groups), b);
            && left.Ok? && right.Ok?
            && ReplacePlaceholders(Some(groups), a + Reference(k) + b) == Ok(left.value + GroupText(groups, k) + right.value)
  {
    hide Substitute;
    assert Pattern(k) == Reference(k);
    GroupIsReferencedIff(groups, a, k, b);
    ReplacementIsSimultaneous(groups, a);
    ReplacementIsSimultaneous(groups, b);
    PatternIsRead(k, Captures(groups));
    ReplacementIsSimultaneous(groups, Reference(k));
    var text := Captures(groups)[k];
    assert text + "" == text;
  }

  /** A destination without `$` comes back unchanged; without a match there is nothing to replace. */
  lemma NothingToReplace(groups: seq<Option<string>>, dest: string)
    requires '$' !in dest
    ensures ReplacePlaceholders(Some(groups), dest) == Ok(dest) && ReplacePlaceholders(None, dest) == Err(NoMatch)
  {
    ReplacementIsSimultaneous(groups, dest);
    LiteralsStay(dest, Captures(groups));
  }

  /** A dollar sign is kept where no group's digit follows. */
  lemma DollarStays(groups: seq<Option<string>>, a: string, b: string)
    requires b == "" || !IsDigit(b[0]) || DigitValue(b[0]) >= |groups|
    ensures var left, right := ReplacePlaceholders(Some(groups), a), ReplacePlaceholders(Some(groups), b);
            && left.Ok? && right.Ok?
            && ReplacePlaceholders(Some(groups), a + "$" + b) == Ok(left.value + "$" + right.value)
  {
    hide Substitute;
    var captures := Captures(groups);
    ReplacementIsSimultaneous(groups, a);
    ReplacementIsSimultaneous(groups, b);
    ReplacementIsSimultaneous(groups, a + "$" + b);
    assert a + "$" + b == a + (['$'] + b);
    SubstituteConcat(a, ['$'] + b, captures);
    SubstituteLiteral('$', b, captures);
    assert Substitute(a, captures) + (['$'] + Substitute(b, captures)) == Substitute(a, captures) + "$" + Substitute(b, captures);
  }
}
