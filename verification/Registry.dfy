/** The agent registry's local scoring (TF-IDF over token sets) and its top-k selection.  Texts are given
    in lower case; the logarithm is any monotone function with log(1) = 0. */
module Registry {
  import opened Reals
  import opened Rounding
  import opened Sequences

  datatype Agent = Agent(id: string, name: string, description: string, tags: seq<string>)

  type Logarithm = real -> real

  ghost predicate IsLogarithm(log: Logarithm) {
    log(1.0) == 0.0 && forall x, y :: 0.0 < x <= y ==> log(x) <= log(y)
  }

  // ----- tokens --------------------------------------------------------------------------------

  predicate IsLetter(c: char) {
    'a' <= c <= 'z' || 'A' <= c <= 'Z'
  }

  predicate IsHan(c: char) {
    '\U{4e00}' <= c <= '\U{9fff}'
  }

  function LeadingLetters(s: string): (n: nat)
    ensures n <= |s|
  {
    if s == [] || !IsLetter(s[0]) then 0 else 1 + LeadingLetters(s[1..])
  }

  /** `_tokenize`: maximal runs of Latin letters, and single Han characters. */
  function Tokenize(s: string): seq<string>
    decreases |s|
  {
    if s == [] then []
    else if IsLetter(s[0]) then
      var n := LeadingLetters(s);
      [s[..n]] + Tokenize(s[n..])
    else if IsHan(s[0]) then [[s[0]]] + Tokenize(s[1..])
    else Tokenize(s[1..])
  }

  /** `part in whole` on strings. */
  predicate Contains(whole: string, part: string) {
    part <= whole || (whole != [] && Contains(whole[1..], part))
  }

  function JoinWords(words: seq<string>): string {
    if words == [] then "" else if |words| == 1 then words[0] else words[0] + " " + JoinWords(words[1..])
  }

  function AgentText(a: Agent): string {
    a.name + " " + a.description + " " + JoinWords(a.tags)
  }

  /** `Contains` is occurrence at some position. */
  lemma {:induction false} ContainsIff(whole: string, part: string)
    ensures Contains(whole, part) <==> exists i :: 0 <= i <= |whole| && part <= whole[i..]
  {
    if part <= whole {
      assert whole[0..] == whole;
    } else if whole != [] {
      ContainsIff(whole[1..], part);
      if i :| 0 <= i <= |whole[1..]| && part <= whole[1..][i..] {
        assert whole[1..][i..] == whole[i + 1..];
      }
      if i :| 0 <= i <= |whole| && part <= whole[i..] {
        assert whole[0..] == whole;
        assert whole[1..][i - 1..] == whole[i..];
      }
    }
  }

  lemma {:induction false} LeadingRun(s: string, rest: string)
    requires (forall c :: c in s ==> IsLetter(c)) && (rest == [] || !IsLetter(rest[0]))
    ensures LeadingLetters(s + rest) == |s|
  {
    if s == [] {
      assert s + rest == rest;
    } else {
      assert s[0] in s;
      assert (s + rest)[1..] == s[1..] + rest;
      LeadingRun(s[1..], rest);
    }
  }

  /** What tokenizing means: a letter run is one token ... */
  lemma LettersAreOneToken(s: string, rest: string)
    requires s != [] && forall c :: c in s ==> 'a' <= c <= 'z' || 'A' <= c <= 'Z'
    requires rest == [] || !('a' <= rest[0] <= 'z' || 'A' <= rest[0] <= 'Z')
    ensures Tokenize(s + rest) == [s] + Tokenize(rest)
  {
    LeadingRun(s, rest);
    assert s[0] in s;
    assert (s + rest)[..|s|] == s && (s + rest)[|s|..] == rest;
  }

  /** ... a Han character is a token of its own, and everything else only separates. */
  lemma OtherCharacters(c: char, rest: string)
    requires !('a' <= c <= 'z' || 'A' <= c <= 'Z')
    ensures Tokenize([c] + rest) == (if '\U{4E00}' <= c <= '\U{9FFF}' then [[c]] else []) + Tokenize(rest)
  {
    assert ([c] + rest)[1..] == rest;
  }

  lemma {:induction false} RunBeforeSeparator(s: string, c: char, t: string)
    requires !IsLetter(c)
    ensures LeadingLetters(s + [c] + t) == LeadingLetters(s)
  {
    if s == [] {
      assert s + [c] + t == [c] + t;
    } else {
      assert (s + [c] + t)[1..] == s[1..] + [c] + t;
      RunBeforeSeparator(s[1..], c, t);
    }
  }

  /** A separator keeps the tokens on its two sides apart. */
  lemma {:induction false} SeparatorSplits(s: string, c: char, t: string)
    requires !IsLetter(c) && !IsHan(c)
    ensures Tokenize(s + [c] + t) == Tokenize(s) + Tokenize(t)
    decreases |s|
  {
    var whole := s + [c] + t;
    if s == [] {
      assert whole == [c] + t;
      OtherCharacters(c, t);
    } else if IsLetter(s[0]) {
      var n := LeadingLetters(s);
      RunBeforeSeparator(s, c, t);
      assert whole[..n] == s[..n] && whole[n..] == s[n..] + [c] + t;
      SeparatorSplits(s[n..], c, t);
    } else {
      assert whole[1..] == s[1..] + [c] + t;
      SeparatorSplits(s[1..], c, t);
    }
  }

  lemma {:induction false} JoinedTokens(words: seq<string>, token: string)
    ensures token in Tokenize(JoinWords(words)) <==> exists i :: 0 <= i < |words| && token in Tokenize(words[i])
  {
    if |words| > 1 {
      JoinedTokens(words[1..], token);
      SeparatorSplits(words[0], ' ', JoinWords(words[1..]));
      assert words == [words[0]] + words[1..];
    }
  }

  /** An agent's tokens are those of its name, of its description and of each of its tags. */
  lemma AgentTokens(a: Agent, token: string)
    ensures token in Tokenize(AgentText(a))
            <==> || token in Tokenize(a.name) || token in Tokenize(a.description)
                 || exists i :: 0 <= i < |a.tags| && token in Tokenize(a.tags[i])
  {
    var rest := JoinWords(a.tags);
    assert AgentText(a) == (a.name + [' '] + a.description) + [' '] + rest;
    SeparatorSplits(a.name + [' '] + a.description, ' ', rest);
    SeparatorSplits(a.name, ' ', a.description);
    JoinedTokens(a.tags, token);
  }

  // ----- weights -------------------------------------------------------------------------------

  function DocumentFrequency(token: string, texts: seq<string>): (df: nat)
    ensures df <= |texts|
  {
    if texts == [] then 0
    else DocumentFrequency(token, texts[..|texts| - 1]) + if Contains(texts[|texts| - 1], token) then 1 else 0
  }

  /** `_idf_score`. */
  function Idf(log: Logarithm, token: string, texts: seq<string>): real {
    log((|texts| + 1) as real / (DocumentFrequency(token, texts) + 1) as real) + 1.0
  }

  lemma QuotientAtLeastOne(n: real, d: real)
    requires n >= d > 0.0
    ensures n / d >= 1.0
  {
    assert (n / d) * d == n;
    assert (n / d - 1.0) * d == n - d;
    NonNegativeFactor(n / d - 1.0, d);
  }

  lemma IdfAtLeastOne(log: Logarithm, token: string, texts: seq<string>)
    requires IsLogarithm(log)
    ensures Idf(log, token, texts) >= 1.0
  {
    var n, d := (|texts| + 1) as real, (DocumentFrequency(token, texts) + 1) as real;
    QuotientAtLeastOne(n, d);
    assert log(1.0) <= log(n / d);
  }

  function TextsWith(token: string, texts: seq<string>): set<int> {
    set i | 0 <= i < |texts| && Contains(texts[i], token)
  }

  /** The number of texts in which the token occurs. */
  lemma {:induction false} FrequencyCountsTexts(token: string, texts: seq<string>)
    ensures DocumentFrequency(token, texts) == |TextsWith(token, texts)|
  {
    var found := TextsWith(token, texts);
    if texts == [] {
      assert found == {};
    } else {
      var init := texts[..|texts| - 1];
      FrequencyCountsTexts(token, init);
      var before := TextsWith(token, init);
      assert |init| !in before && forall i :: 0 <= i < |init| ==> init[i] == texts[i];
      assert found == if Contains(texts[|init|], token) then before + {|init|} else before;
    }
  }

  /** Every text with the one token has the other too. */
  ghost predicate Rarer(token: string, other: string, texts: seq<string>) {
    forall i :: 0 <= i < |texts| && Contains(texts[i], token) ==> Contains(texts[i], other)
  }

  lemma DivideByMore(n: real, d: real, e: real)
    requires n > 0.0 && 0.0 < d <= e
    ensures 0.0 < n / e <= n / d
  {
    var x, y := n / d, n / e;
    assert x * d == n && y * e == n;
    if y <= 0.0 { NonNegativeFactor(0.0 - y, e); }
    PositiveFactor(y, e);
    assert (x - y) * d == y * (e - d);
    NonNegativeFactor(x - y, d);
  }

  /** A token found only in texts that have the other one too weighs at least as much. */
  lemma RarerWeighsMore(log: Logarithm, token: string, other: string, texts: seq<string>)
    requires IsLogarithm(log) && Rarer(token, other, texts)
    ensures DocumentFrequency(token, texts) <= DocumentFrequency(other, texts)
    ensures Idf(log, token, texts) >= Idf(log, other, texts)
  {
    FrequencyCountsTexts(token, texts);
    FrequencyCountsTexts(other, texts);
    SubsetSize(TextsWith(token, texts), TextsWith(other, texts));
    var d, e := (DocumentFrequency(token, texts) + 1) as real, (DocumentFrequency(other, texts) + 1) as real;
    DivideByMore((|texts| + 1) as real, d, e);
  }

  lemma {:induction false} InEveryText(token: string, texts: seq<string>)
    requires forall i :: 0 <= i < |texts| ==> Contains(texts[i], token)
    ensures DocumentFrequency(token, texts) == |texts|
  {
    if texts != [] { InEveryText(token, texts[..|texts| - 1]); }
  }

  lemma {:induction false} InNoText(token: string, texts: seq<string>)
    requires forall i :: 0 <= i < |texts| ==> !Contains(texts[i], token)
    ensures DocumentFrequency(token, texts) == 0
  {
    if texts != [] { InNoText(token, texts[..|texts| - 1]); }
  }

  lemma QuotientOfEqual(n: real)
    requires n > 0.0
    ensures n / n == 1.0 && n / 1.0 == n
  {
  }

  /** A token of every text weighs 1, ... */
  lemma CommonestWeight(log: Logarithm, token: string, texts: seq<string>)
    requires IsLogarithm(log) && forall i :: 0 <= i < |texts| ==> Contains(texts[i], token)
    ensures Idf(log, token, texts) == 1.0
  {
    InEveryText(token, texts);
    QuotientOfEqual((|texts| + 1) as real);
  }

  /** ... one of no text 1 more than the logarithm of the number of texts and one. */
  lemma RarestWeight(log: Logarithm, token: string, texts: seq<string>)
    requires forall i :: 0 <= i < |texts| ==> !Contains(texts[i], token)
    ensures Idf(log, token, texts) == log((|texts| + 1) as real) + 1.0
  {
    InNoText(token, texts);
    QuotientOfEqual((|texts| + 1) as real);
  }

  predicate InTag(a: Agent, token: string) {
    exists i :: 0 <= i < |a.tags| && Contains(a.tags[i], token)
  }

  function Weight(a: Agent, token: string): real {
    if InTag(a, token) then 2.0 else if Contains(a.name, token) then 1.5 else 1.0
  }

  predicate FullMatch(a: Agent, token: string) {
    token in Tokenize(AgentText(a)) && InTag(a, token)
  }

  /** What a query token earns, and the most it could. */
  function Gain(log: Logarithm, a: Agent, texts: seq<string>): string -> real {
    token => if token in Tokenize(AgentText(a)) then Idf(log, token, texts) * Weight(a, token) else 0.0
  }

  function Ceiling(log: Logarithm, texts: seq<string>): string -> real {
    token => Idf(log, token, texts) * 2.0
  }

  lemma GainBounds(log: Logarithm, a: Agent, texts: seq<string>, token: string)
    requires IsLogarithm(log)
    ensures 0.0 <= Gain(log, a, texts)(token) <= Ceiling(log, texts)(token)
    ensures Ceiling(log, texts)(token) >= 2.0
    ensures Gain(log, a, texts)(token) == Ceiling(log, texts)(token) <==> FullMatch(a, token)
  {
    IdfAtLeastOne(log, token, texts);
  }

  // ----- sums over sets ------------------------------------------------------------------------

  ghost function Sum(tokens: set<string>, f: string -> real): real {
    if tokens == {} then 0.0
    else
      var t :| t in tokens;
      f(t) + Sum(tokens - {t}, f)
  }

  /** The order of summation does not matter. */
  lemma {:induction false} SumRemove(tokens: set<string>, f: string -> real, t: string)
    requires t in tokens
    ensures Sum(tokens, f) == f(t) + Sum(tokens - {t}, f)
  {
    var u :| u in tokens && Sum(tokens, f) == f(u) + Sum(tokens - {u}, f);
    if u != t {
      SumRemove(tokens - {u}, f, t);
      SumRemove(tokens - {t}, f, u);
      assert tokens - {u} - {t} == tokens - {t} - {u};
    }
  }

  lemma {:induction false} SumBounds(log: Logarithm, a: Agent, texts: seq<string>, tokens: set<string>)
    requires IsLogarithm(log)
    ensures 0.0 <= Sum(tokens, Gain(log, a, texts)) <= Sum(tokens, Ceiling(log, texts))
    ensures tokens != {} ==> Sum(tokens, Ceiling(log, texts)) > 0.0
    ensures Sum(tokens, Gain(log, a, texts)) == Sum(tokens, Ceiling(log, texts))
            <==> forall t :: t in tokens ==> FullMatch(a, t)
  {
    if tokens != {} {
      var t :| t in tokens;
      SumRemove(tokens, Gain(log, a, texts), t);
      SumRemove(tokens, Ceiling(log, texts), t);
      SumBounds(log, a, texts, tokens - {t});
      GainBounds(log, a, texts, t);
      assert forall u :: u in tokens <==> u == t || u in tokens - {t};
    }
  }

  // ----- the score -----------------------------------------------------------------------------

  function QueryTokens(task: string, keyword: string): set<string> {
    Elements(Tokenize(keyword + " " + task))
  }

  /** The query tokens are those of the keyword and of the task. */
  lemma QueryTokensOf(task: string, keyword: string, token: string)
    ensures token in QueryTokens(task, keyword) <==> token in Tokenize(keyword) || token in Tokenize(task)
  {
    assert keyword + " " + task == keyword + [' '] + task;
    SeparatorSplits(keyword, ' ', task);
  }

  /** The unclamped score. */
  ghost function Ratio(log: Logarithm, a: Agent, texts: seq<string>, tokens: set<string>): real
    requires IsLogarithm(log) && tokens != {}
  {
    SumBounds(log, a, texts, tokens);
    Sum(tokens, Gain(log, a, texts)) / Sum(tokens, Ceiling(log, texts))
  }

  lemma QuotientInUnit(n: real, d: real)
    requires 0.0 <= n <= d && d > 0.0
    ensures 0.0 <= n / d <= 1.0 && (n / d == 1.0 <==> n == d)
  {
    var q := n / d;
    assert q * d == n;
    assert (1.0 - q) * d == d - n;
    NonNegativeFactor(q, d);
    NonNegativeFactor(1.0 - q, d);
  }

  /** Without the clamp the score is already between 0 and 1, and it is 1 if and only if every query token
      is one of the agent's tokens and occurs in one of its tags. */
  lemma RatioInUnit(log: Logarithm, a: Agent, texts: seq<string>, tokens: set<string>)
    requires IsLogarithm(log) && tokens != {}
    ensures 0.0 <= Ratio(log, a, texts, tokens) <= 1.0
    ensures Ratio(log, a, texts, tokens) == 1.0 <==> forall t :: t in tokens ==> FullMatch(a, t)
  {
    SumBounds(log, a, texts, tokens);
    QuotientInUnit(Sum(tokens, Gain(log, a, texts)), Sum(tokens, Ceiling(log, texts)));
  }

  /** What `score_agent` returns. */
  ghost function Score(log: Logarithm, a: Agent, task: string, keyword: string, texts: seq<string>): real
    requires IsLogarithm(log)
  {
    var tokens := QueryTokens(task, keyword);
    if tokens == {} then 0.0 else Ratio(log, a, texts, tokens)
  }

  lemma SumOfOne(t: string, f: string -> real)
    ensures Sum({t}, f) == f(t)
  {
    SumRemove({t}, f, t);
    assert {t} - {t} == {};
  }

  lemma HalfOf(x: real, c: real)
    requires x > 0.0
    ensures x * c / (x * 2.0) == c / 2.0
  {
    var q := x * c / (x * 2.0);
    assert q * (x * 2.0) == x * c;
    assert (q - c / 2.0) * (x * 2.0) == 0.0;
    assert q - c / 2.0 >= 0.0 by { NonNegativeFactor(q - c / 2.0, x * 2.0); }
    assert c / 2.0 - q >= 0.0 by {
      assert (c / 2.0 - q) * (x * 2.0) == 0.0;
      NonNegativeFactor(c / 2.0 - q, x * 2.0);
    }
  }

  lemma GainIsShare(log: Logarithm, a: Agent, texts: seq<string>, t: string, share: real)
    requires share == if t in Tokenize(AgentText(a)) then Weight(a, t) else 0.0
    ensures Gain(log, a, texts)(t) == Idf(log, t, texts) * share
  {
  }

  lemma RatioOfOne(log: Logarithm, a: Agent, texts: seq<string>, t: string, share: real)
    requires IsLogarithm(log) && share == if t in Tokenize(AgentText(a)) then Weight(a, t) else 0.0
    ensures Ratio(log, a, texts, {t}) == share / 2.0
  {
    SumOfOne(t, Gain(log, a, texts));
    SumOfOne(t, Ceiling(log, texts));
    IdfAtLeastOne(log, t, texts);
    GainIsShare(log, a, texts, t, share);
    HalfOf(Idf(log, t, texts), share);
  }

  /** How one query token is matched decides the score for it: in a tag all of it, in the name three quarters,
      elsewhere half, and nothing if it is no token of the agent. */
  lemma SingleTokenScores(log: Logarithm, a: Agent, texts: seq<string>, t: string)
    requires IsLogarithm(log)
    ensures Ratio(log, a, texts, {t})
            == if t !in Tokenize(AgentText(a)) then 0.0
               else if exists i :: 0 <= i < |a.tags| && Contains(a.tags[i], t) then 1.0
               else if Contains(a.name, t) then 0.75 else 0.5
  {
    RatioOfOne(log, a, texts, t, if t in Tokenize(AgentText(a)) then Weight(a, t) else 0.0);
  }

  lemma SumOfTwo(t: string, u: string, f: string -> real)
    requires t != u
    ensures Sum({t, u}, f) == f(t) + f(u)
  {
    SumRemove({t, u}, f, t);
    assert {t, u} - {t} == {u};
    SumOfOne(u, f);
  }

  lemma DivideMore(x: real, y: real, d: real)
    requires x <= y && d > 0.0
    ensures x / d <= y / d
  {
    assert (y / d - x / d) * d == y - x;
    NonNegativeFactor(y / d - x / d, d);
  }

  lemma GainsCompare(log: Logarithm, a: Agent, b: Agent, texts: seq<string>, t: string, u: string)
    requires IsLogarithm(log) && t != u && Rarer(t, u, texts)
    requires FullMatch(a, t) && u !in Tokenize(AgentText(a)) && FullMatch(b, u) && t !in Tokenize(AgentText(b))
    ensures Sum({t, u}, Gain(log, b, texts)) <= Sum({t, u}, Gain(log, a, texts))
  {
    RarerWeighsMore(log, t, u, texts);
    SumOfTwo(t, u, Gain(log, a, texts));
    SumOfTwo(t, u, Gain(log, b, texts));
  }

  lemma RoundedMonotone(x: real, y: real)
    requires x <= y
    ensures RoundTo(x, 10000) <= RoundTo(y, 10000)
  {
    HalfEvenMonotone(x * 10000.0, y * 10000.0);
  }

  /** Of two agents that each match exactly one of two query tokens, in a tag, the one with the rarer token
      scores no lower, before and after rounding. */
  lemma RarerMatchScoresHigher(log: Logarithm, a: Agent, b: Agent, texts: seq<string>, t: string, u: string)
    requires IsLogarithm(log) && t != u && Rarer(t, u, texts)
    requires FullMatch(a, t) && u !in Tokenize(AgentText(a)) && FullMatch(b, u) && t !in Tokenize(AgentText(b))
    ensures Ratio(log, a, texts, {t, u}) >= Ratio(log, b, texts, {t, u})
    ensures RoundTo(Ratio(log, a, texts, {t, u}), 10000) >= RoundTo(Ratio(log, b, texts, {t, u}), 10000)
  {
    var tokens := {t, u};
    GainsCompare(log, a, b, texts, t, u);
    SumBounds(log, a, texts, tokens);
    DivideMore(Sum(tokens, Gain(log, b, texts)), Sum(tokens, Gain(log, a, texts)), Sum(tokens, Ceiling(log, texts)));
    RoundedMonotone(Ratio(log, b, texts, tokens), Ratio(log, a, texts, tokens));
  }

  lemma SumExtend(order: seq<string>, i: nat, f: string -> real)
    requires Distinct(order) && i < |order|
    ensures Sum(Elements(order[..i + 1]), f) == Sum(Elements(order[..i]), f) + f(order[i])
  {
    assert order[..i + 1] == order[..i] + [order[i]];
    ElementsAppend(order[..i], order[i]);
    assert order[i] !in order[..i];
    var tokens := Elements(order[..i + 1]);
    SumRemove(tokens, f, order[i]);
    assert tokens - {order[i]} == Elements(order[..i]);
  }

  /** First pass: what the query tokens earn. */
  method AddGains(log: Logarithm, a: Agent, texts: seq<string>, order: seq<string>) returns (score: real)
    requires Distinct(order)
    ensures score == Sum(Elements(order), Gain(log, a, texts))
  {
    var agentTokens := Elements(Tokenize(AgentText(a)));
    score := 0.0;
    for i := 0 to |order|
      invariant score == Sum(Elements(order[..i]), Gain(log, a, texts))
    {
      SumExtend(order, i, Gain(log, a, texts));
      var token := order[i];
      if token in agentTokens {
        var weight := if InTag(a, token) then 2.0 else if Contains(a.name, token) then 1.5 else 1.0;
        score := score + Idf(log, token, texts) * weight;
      }
    }
    assert order[..|order|] == order;
  }

  /** Second pass: the most they could earn. */
  method AddCeilings(log: Logarithm, texts: seq<string>, order: seq<string>) returns (maxPossible: real)
    requires Distinct(order)
    ensures maxPossible == Sum(Elements(order), Ceiling(log, texts))
  {
    maxPossible := 0.0;
    for i := 0 to |order|
      invariant maxPossible == Sum(Elements(order[..i]), Ceiling(log, texts))
    {
      SumExtend(order, i, Ceiling(log, texts));
      maxPossible := maxPossible + Idf(log, order[i], texts) * 2.0;
    }
    assert order[..|order|] == order;
  }

  /** `score_agent`: two passes over the query tokens, in whatever order the set gives them. */
  method ScoreAgent(log: Logarithm, a: Agent, task: string, keyword: string, texts: seq<string>)
    returns (result: real)
    requires IsLogarithm(log)
    ensures result == Score(log, a, task, keyword, texts)
  {
    var tokens := QueryTokens(task, keyword);
    if tokens == {} { return 0.0; }
    var order := Enumerate(tokens);
    var score := AddGains(log, a, texts, order);
    var maxPossible := AddCeilings(log, texts, order);
    SumBounds(log, a, texts, tokens);
    RatioInUnit(log, a, texts, tokens);
    if maxPossible > 0.0 {
      result := if score / maxPossible < 1.0 then score / maxPossible else 1.0;
    } else {
      result := 0.0;
    }
  }

  // ----- top-k ---------------------------------------------------------------------------------

  datatype Scored = Scored(score: real, agent: Agent)

  /** Sort key of `sort(key=score, reverse=True)`: descending, ties in their old order. */
  function Descending(): Scored -> real {
    (x: Scored) => 0.0 - x.score
  }

  /** Python's `s[:k]`, for negative `k` too. */
  function Take<T>(s: seq<T>, k: int): seq<T> {
    if k >= 0 then (if k <= |s| then s[..k] else s) else if -k <= |s| then s[..|s| + k] else []
  }

  function TakeLength(n: nat, k: int): nat {
    if k >= 0 then (if k <= n then k else n) else if -k <= n then n + k else 0
  }

  lemma TakeIsPrefix<T>(s: seq<T>, k: int)
    ensures Take(s, k) == s[..TakeLength(|s|, k)]
  {
  }

  ghost function Rounded(log: Logarithm, a: Agent, task: string, keyword: string, texts: seq<string>): Scored
    requires IsLogarithm(log)
  {
    Scored(RoundTo(Score(log, a, task, keyword, texts), 10000), a)
  }

  ghost function AllScored(log: Logarithm, agents: seq<Agent>, task: string, keyword: string,
                           texts: seq<string>): (scored: seq<Scored>)
    requires IsLogarithm(log)
    ensures |scored| == |agents|
  {
    seq(|agents|, i requires 0 <= i < |agents| => Rounded(log, agents[i], task, keyword, texts))
  }

  ghost predicate Decreasing(s: seq<Scored>) {
    forall i, j :: 0 <= i < |s| && i <= j < |s| ==> s[i].score >= s[j].score
  }

  /** `top` is what `[:limit]` leaves of `ranking`, the agents in decreasing order of their rounded score. */
  ghost predicate BestOf(scored: seq<Scored>, limit: int, top: seq<Scored>, ranking: seq<Scored>) {
    && multiset(ranking) == multiset(scored) && |ranking| == |scored|
    && (forall v :: WithKey(ranking, Descending(), v) == WithKey(scored, Descending(), v))
    && top == ranking[..TakeLength(|ranking|, limit)]
    && Decreasing(ranking)
  }

  lemma SortIsBest(scored: seq<Scored>, limit: int)
    ensures var ranking := SortBy(scored, Descending());
            BestOf(scored, limit, ranking[..TakeLength(|ranking|, limit)], ranking)
  {
    var ranking := SortBy(scored, Descending());
    SortByCorrect(scored, Descending());
    forall v ensures WithKey(ranking, Descending(), v) == WithKey(scored, Descending(), v) {
      SortByStable(scored, Descending(), v);
    }
    forall i, j | 0 <= i < |ranking| && i <= j < |ranking| ensures ranking[i].score >= ranking[j].score {
      assert i < j ==> Descending()(ranking[i]) <= Descending()(ranking[j]);
    }
  }

  /** The local fallback of the registry: score every agent, round to four decimals, sort, cut.  For every
      `topK`, negative ones included, nothing that is cut off has a higher rounded score than anything
      returned, agents of equal score are ranked as registered, and nobody is listed twice or lost. */
  method Fallback(log: Logarithm, agents: seq<Agent>, task: string, keyword: string, texts: seq<string>, topK: int)
    returns (top: seq<Scored>)
    requires IsLogarithm(log)
    ensures var limit := if topK < |agents| then topK else |agents|;
            exists ranking :: BestOf(AllScored(log, agents, task, keyword, texts), limit, top, ranking)
    ensures |top| == if topK >= |agents| then |agents| else if topK >= 0 then topK
                     else if -topK <= |agents| then |agents| + topK else 0
  {
    var limit := if topK < |agents| then topK else |agents|;
    var list: seq<Scored> := [];
    for i := 0 to |agents|
      invariant |list| == i
      invariant forall j :: 0 <= j < i ==> list[j] == Rounded(log, agents[j], task, keyword, texts)
    {
      var s := ScoreAgent(log, agents[i], task, keyword, texts);
      list := list + [Scored(RoundTo(s, 10000), agents[i])];
    }
    ghost var scored := AllScored(log, agents, task, keyword, texts);
    assert list == scored;
    list := SortBy(list, Descending());
    SortIsBest(scored, limit);
    TakeIsPrefix(list, limit);
    top := Take(list, limit);
  }

  lemma WithKeyMembers(s: seq<Scored>, v: real, x: Scored)
    ensures x in WithKey(s, Descending(), v) <==> x in s && Descending()(x) == v
  {
  }

  lemma WithKeyTail(a: seq<Scored>, b: seq<Scored>, v: real)
    requires a != [] && b != [] && a[0] == b[0]
    requires WithKey(a, Descending(), v) == WithKey(b, Descending(), v)
    ensures WithKey(a[1..], Descending(), v) == WithKey(b[1..], Descending(), v)
  {
    var head := if Descending()(a[0]) == v then [a[0]] else [];
    var ta, tb := WithKey(a[1..], Descending(), v), WithKey(b[1..], Descending(), v);
    assert head + ta == head + tb;
    assert ta == (head + ta)[|head|..] && tb == (head + tb)[|head|..];
  }

  lemma SameHead(a: seq<Scored>, b: seq<Scored>)
    requires a != [] && b != [] && Decreasing(a) && Decreasing(b)
    requires forall v :: WithKey(a, Descending(), v) == WithKey(b, Descending(), v)
    ensures a[0] == b[0]
  {
    WithKeyMembers(a, Descending()(a[0]), a[0]);
    WithKeyMembers(b, Descending()(a[0]), a[0]);
    WithKeyMembers(a, Descending()(b[0]), b[0]);
    WithKeyMembers(b, Descending()(b[0]), b[0]);
    assert a[0] in b && b[0] in a;
    assert a[0].score == b[0].score;
    var v := Descending()(a[0]);
    assert WithKey(a, Descending(), v)[0] == a[0] && WithKey(b, Descending(), v)[0] == b[0];
  }

  lemma {:induction false} SameRanking(a: seq<Scored>, b: seq<Scored>)
    requires Decreasing(a) && Decreasing(b)
    requires forall v :: WithKey(a, Descending(), v) == WithKey(b, Descending(), v)
    ensures a == b
  {
    if a == [] {
      if b != [] { WithKeyMembers(a, Descending()(b[0]), b[0]); WithKeyMembers(b, Descending()(b[0]), b[0]); }
    } else if b == [] {
      WithKeyMembers(a, Descending()(a[0]), a[0]);
      WithKeyMembers(b, Descending()(a[0]), a[0]);
    } else {
      SameHead(a, b);
      forall v ensures WithKey(a[1..], Descending(), v) == WithKey(b[1..], Descending(), v) {
        assert WithKey(a, Descending(), v) == WithKey(b, Descending(), v);
        WithKeyTail(a, b, v);
      }
      SameRanking(a[1..], b[1..]);
      assert a == [a[0]] + a[1..] && b == [b[0]] + b[1..];
    }
  }

  /** Two rankings of the same agents cannot differ, so the list returned is settled by the scores, the
      order of registration and `topK`. */
  lemma BestIsUnique(scored: seq<Scored>, limit: int, top: seq<Scored>, ranking: seq<Scored>,
                     top': seq<Scored>, ranking': seq<Scored>)
    requires BestOf(scored, limit, top, ranking) && BestOf(scored, limit, top', ranking')
    ensures top == top'
  {
    SameRanking(ranking, ranking');
  }

  /** The score that is ranked is within half of a ten-thousandth of the exact one. */
  lemma RoundedNear(log: Logarithm, a: Agent, task: string, keyword: string, texts: seq<string>)
    requires IsLogarithm(log)
    ensures var exact, shown := Score(log, a, task, keyword, texts), Rounded(log, a, task, keyword, texts).score;
            -0.00005 <= shown - exact <= 0.00005
  {
    HalfEvenNear(Score(log, a, task, keyword, texts) * 10000.0);
  }

  /** Rounding to four decimals never swaps two agents and leaves every score between 0 and 1. */
  lemma RoundedScores(x: real, y: real)
    requires 0.0 <= x <= y <= 1.0
    ensures 0.0 <= RoundTo(x, 10000) <= RoundTo(y, 10000) <= 1.0
  {
    HalfEvenMonotone(0.0, x * 10000.0);
    HalfEvenMonotone(x * 10000.0, y * 10000.0);
    HalfEvenMonotone(y * 10000.0, 10000.0);
    HalfEvenInteger(0);
    HalfEvenInteger(10000);
  }

  /** So in the list returned for a query with these two tokens, the agent with the commoner token never
      stands while the other has been cut, unless their rounded scores are equal. */
  lemma RarerMatchReturnedFirst(log: Logarithm, agents: seq<Agent>, task: string, keyword: string, texts: seq<string>,
                                limit: int, top: seq<Scored>, ranking: seq<Scored>, a: Scored, b: Scored, t: string,
                                u: string)
    requires IsLogarithm(log) && BestOf(AllScored(log, agents, task, keyword, texts), limit, top, ranking)
    requires QueryTokens(task, keyword) == {t, u} && t != u && Rarer(t, u, texts)
    requires a == Rounded(log, a.agent, task, keyword, texts) && b == Rounded(log, b.agent, task, keyword, texts)
    requires FullMatch(a.agent, t) && u !in Tokenize(AgentText(a.agent))
    requires FullMatch(b.agent, u) && t !in Tokenize(AgentText(b.agent))
    requires b in top && a in ranking && a !in top
    ensures a.score == b.score
  {
    RarerMatchScoresHigher(log, a.agent, b.agent, texts, t, u);
    var i :| 0 <= i < |top| && top[i] == b;
    var j :| 0 <= j < |ranking| && ranking[j] == a;
    assert j >= |top| by {
      forall k | 0 <= k < |top| ensures top[k] == ranking[k] {}
    }
    assert ranking[i] == b && ranking[i].score >= ranking[j].score;
  }
}
