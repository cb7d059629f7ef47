/** Advisor name tokens (src/lib/advisor-tokens.ts). Texts are taken after
    `normalizeQueryToken`; Unicode folding itself is not part of this model. */
module AdvisorTokens {
  import opened Sequences
  import opened StableSort
  import opened Texts

  const MAX_TOKENS_PER_ADVISOR: nat := 32

  datatype TokenKind = Name | FirstName | LastName | PreferredName | Alias

  datatype AdvisorToken = AdvisorToken(token: Text, kind: TokenKind)

  /** The four name fields, normalized, `[]` when absent. */
  datatype AdvisorNames = AdvisorNames(legal: Text, first: Text, last: Text, preferred: Text)

  /** The class `[\s.,'-]`. */
  predicate IsSeparator(c: CodeUnit) {
    IsSpace(c) || c == 46 || c == 44 || c == 39 || c == 45
  }

  function FirstSeparator(s: Text): (i: nat)
    ensures i <= |s|
    ensures i < |s| ==> IsSeparator(s[i])
    ensures forall j :: 0 <= j < i ==> !IsSeparator(s[j])
  {
    if s == [] || IsSeparator(s[0]) then 0 else 1 + FirstSeparator(s[1..])
  }

  function SkipSeparators(s: Text): (r: Text)
    ensures |r| <= |s|
    ensures s != [] && IsSeparator(s[0]) ==> |r| < |s|
  {
    if s == [] || !IsSeparator(s[0]) then s else SkipSeparators(s[1..])
  }

  /** `split` on runs of separators. */
  function Split(s: Text): seq<Text>
    decreases |s|
  {
    var i := FirstSeparator(s);
    if i == |s| then [s] else [s[..i]] + Split(SkipSeparators(s[i..]))
  }

  function LongEnough(): Text -> bool {
    (t: Text) => |t| >= 2
  }

  /** `splitQueryTokens` on normalized text. */
  function SplitQueryTokens(normalized: Text): seq<Text> {
    if normalized == [] then [] else Filter(Split(normalized), LongEnough())
  }

  function KindRank(kind: TokenKind): nat {
    match kind
    case Name => 4
    case LastName => 3
    case FirstName => 2
    case PreferredName => 1
    case Alias => 0
  }

  /** Where a token sits in the insertion-ordered map; its size stands for "absent". */
  function IndexOfToken(acc: seq<AdvisorToken>, token: Text): (i: nat)
    ensures i <= |acc|
    ensures i < |acc| ==> acc[i].token == token
    ensures forall j :: 0 <= j < i ==> acc[j].token != token
  {
    if acc == [] || acc[0].token == token then 0 else 1 + IndexOfToken(acc[1..], token)
  }

  /** `addToken`: an existing entry keeps its place and only yields to a stronger kind. */
  function AddToken(acc: seq<AdvisorToken>, token: Text, kind: TokenKind): seq<AdvisorToken> {
    var i := IndexOfToken(acc, token);
    if token == [] then acc
    else if i == |acc| then acc + [AdvisorToken(token, kind)]
    else if KindRank(kind) <= KindRank(acc[i].kind) then acc
    else acc[i := AdvisorToken(token, kind)]
  }

  function Classify(names: AdvisorNames, token: Text): TokenKind {
    if token in SplitQueryTokens(names.last) then LastName
    else if token in SplitQueryTokens(names.first) then FirstName
    else if token in SplitQueryTokens(names.preferred) then PreferredName
    else Name
  }

  function AddAll(names: AdvisorNames, acc: seq<AdvisorToken>, tokens: seq<Text>): seq<AdvisorToken>
    decreases tokens
  {
    if tokens == [] then acc
    else AddAll(names, AddToken(acc, tokens[0], Classify(names, tokens[0])), tokens[1..])
  }

  /** `uniqueOrdered`, continuing from `acc`. */
  function UniqueOrdered(acc: seq<Text>, tokens: seq<Text>): seq<Text>
    decreases tokens
  {
    if tokens == [] then acc
    else UniqueOrdered(if tokens[0] in acc then acc else acc + [tokens[0]], tokens[1..])
  }

  function Singles(names: AdvisorNames): seq<Text> {
    UniqueOrdered([],
      SplitQueryTokens(names.legal) + SplitQueryTokens(names.first) +
      SplitQueryTokens(names.last) + SplitQueryTokens(names.preferred))
  }

  function AllTokens(names: AdvisorNames): seq<AdvisorToken> {
    AddToken(AddAll(names, [], Singles(names)), names.legal, Name)
  }

  function TokensForAdvisor(names: AdvisorNames): seq<AdvisorToken> {
    Take(AllTokens(names), MAX_TOKENS_PER_ADVISOR)
  }

  // ---------------------------------------------------------------- words

  /** What `splitQueryTokens` produces: at least two code units, none a separator. */
  ghost predicate IsWord(t: Text) {
    |t| >= 2 && forall i :: 0 <= i < |t| ==> !IsSeparator(t[i])
  }

  lemma {:induction false} SplitIsSeparatorFree(s: Text, piece: Text)
    requires piece in Split(s)
    ensures forall i :: 0 <= i < |piece| ==> !IsSeparator(piece[i])
    decreases |s|
  {
    hide IsSeparator;
    var i := FirstSeparator(s);
    if i < |s| && piece != s[..i] {
      SplitIsSeparatorFree(SkipSeparators(s[i..]), piece);
    }
  }

  lemma QueryTokensAreWords(s: Text, t: Text)
    requires t in SplitQueryTokens(s)
    ensures IsWord(t)
  {
    hide Split, IsSeparator;
    FilterMembers(Split(s), LongEnough(), t);
    SplitIsSeparatorFree(s, t);
  }

  /** A word that starts the text starts the text's first word. */
  lemma LeadingWord(s: Text, t: Text)
    requires IsWord(t) && t <= s
    ensures SplitQueryTokens(s) != [] && t <= SplitQueryTokens(s)[0]
  {
    hide IsSeparator;
    var i := FirstSeparator(s);
    assert forall j :: 0 <= j < |t| ==> s[j] == t[j];
    assert |t| <= i;
    var pieces := Split(s);
    assert pieces[0] == s[..i];
    assert Filter(pieces, LongEnough())[0] == pieces[0];
  }

  // ---------------------------------------------------------------- the token set

  function TokenTexts(tokens: seq<AdvisorToken>): (r: seq<Text>)
    ensures |r| == |tokens| && forall i :: 0 <= i < |r| ==> r[i] == tokens[i].token
  {
    Map(tokens, (t: AdvisorToken) => t.token)
  }

  lemma {:induction false} UniqueOrderedIsDistinct(acc: seq<Text>, tokens: seq<Text>)
    requires Distinct(acc)
    ensures Distinct(UniqueOrdered(acc, tokens))
    ensures acc <= UniqueOrdered(acc, tokens)
    ensures forall t :: t in UniqueOrdered(acc, tokens) <==> t in acc || t in tokens
    decreases tokens
  {
    if tokens == [] {
    } else {
      var next := if tokens[0] in acc then acc else acc + [tokens[0]];
      UniqueOrderedIsDistinct(next, tokens[1..]);
      assert forall t :: t in tokens <==> t == tokens[0] || t in tokens[1..];
    }
  }

  /** Every entry carries the kind its word is classified as. */
  ghost predicate Classified(names: AdvisorNames, tokens: seq<AdvisorToken>) {
    forall i :: 0 <= i < |tokens| ==> tokens[i].kind == Classify(names, tokens[i].token)
  }

  lemma {:induction false} AddAllAppends(names: AdvisorNames, acc: seq<AdvisorToken>, tokens: seq<Text>)
    requires Distinct(TokenTexts(acc) + tokens) && Classified(names, acc)
    requires forall i :: 0 <= i < |tokens| ==> tokens[i] != []
    ensures TokenTexts(AddAll(names, acc, tokens)) == TokenTexts(acc) + tokens
    ensures Classified(names, AddAll(names, acc, tokens))
    decreases tokens
  {
    hide Classify;
    if tokens == [] {
    } else {
      var token := tokens[0];
      var all := TokenTexts(acc) + tokens;
      var next := AddToken(acc, token, Classify(names, token));
      assert all[|acc|] == token;
      assert forall j :: 0 <= j < |acc| ==> all[j] == acc[j].token && all[j] != all[|acc|];
      assert IndexOfToken(acc, token) == |acc|;
      assert TokenTexts(next) == TokenTexts(acc) + [token];
      assert TokenTexts(acc) + [token] + tokens[1..] == all;
      AddAllAppends(names, next, tokens[1..]);
    }
  }

  lemma SinglesAreWords(names: AdvisorNames)
    ensures Distinct(Singles(names))
    ensures forall i :: 0 <= i < |Singles(names)| ==> IsWord(Singles(names)[i])
  {
    hide SplitQueryTokens, IsWord;
    var words := SplitQueryTokens(names.legal) + SplitQueryTokens(names.first) +
      SplitQueryTokens(names.last) + SplitQueryTokens(names.preferred);
    UniqueOrderedIsDistinct([], words);
    forall i | 0 <= i < |Singles(names)| ensures IsWord(Singles(names)[i]) {
      var t := Singles(names)[i];
      assert t in words;
      if t in SplitQueryTokens(names.legal) {
        QueryTokensAreWords(names.legal, t);
      } else if t in SplitQueryTokens(names.first) {
        QueryTokensAreWords(names.first, t);
      } else if t in SplitQueryTokens(names.last) {
        QueryTokensAreWords(names.last, t);
      } else {
        QueryTokensAreWords(names.preferred, t);
      }
    }
  }

  lemma SinglesMap(names: AdvisorNames)
    ensures var singles := AddAll(names, [], Singles(names));
      && TokenTexts(singles) == Singles(names)
      && Classified(names, singles)
  {
    hide Singles, Classify;
    SinglesAreWords(names);
    assert TokenTexts([]) + Singles(names) == Singles(names);
    AddAllAppends(names, [], Singles(names));
  }

  /** Where the full name stands among the single words' entries. */
  lemma NameAmongSingles(names: AdvisorNames)
    ensures var singles := AddAll(names, [], Singles(names));
      var i := IndexOfToken(singles, names.legal);
      && (names.legal in Singles(names) <==> i < |singles|)
      && (names.legal == [] ==> i == |singles|)
  {
    hide Singles, Classify, IsWord, AddAll;
    var singles := AddAll(names, [], Singles(names));
    var i := IndexOfToken(singles, names.legal);
    SinglesMap(names);
    SinglesNonempty(names);
    if i < |singles| {
      assert TokenTexts(singles)[i] == names.legal;
    }
    if names.legal in Singles(names) {
      var j :| 0 <= j < |singles| && TokenTexts(singles)[j] == names.legal;
    }
  }

  /** All the tokens before the cap: the words, then the name if it is none of them. */
  lemma AllTokensShape(names: AdvisorNames)
    ensures var all := AllTokens(names);
      var extra := if names.legal == [] || names.legal in Singles(names) then [] else [names.legal];
      && TokenTexts(all) == Singles(names) + extra
      && forall i :: 0 <= i < |all| ==>
           all[i].kind == if all[i].token == names.legal then Name else Classify(names, all[i].token)
  {
    hide Singles, Classify, IsWord, AddAll;
    var singles := AddAll(names, [], Singles(names));
    var all := AllTokens(names);
    SinglesMap(names);
    SinglesAreWords(names);
    NameAmongSingles(names);
    NameIsStrongest(Classify(names, names.legal));
    var i := IndexOfToken(singles, names.legal);
    if i < |singles| {
      assert TokenTexts(all) == TokenTexts(singles) + [];
      SinglesDiffer(names, singles, i);
    } else if names.legal == [] {
      assert TokenTexts(all) == TokenTexts(singles) + [];
      SinglesNonempty(names);
    } else {
      assert TokenTexts(all) == TokenTexts(singles) + [names.legal];
    }
    forall k | 0 <= k < |singles| ensures TokenTexts(singles)[k] in Singles(names) {
    }
  }

  lemma SinglesDiffer(names: AdvisorNames, singles: seq<AdvisorToken>, i: nat)
    requires TokenTexts(singles) == Singles(names) && i < |singles|
    ensures forall k :: 0 <= k < |singles| && k != i ==> singles[k].token != singles[i].token
  {
    hide Singles, IsWord;
    SinglesAreWords(names);
    forall k | 0 <= k < |singles| && k != i ensures singles[k].token != singles[i].token {
      assert Singles(names)[k] == singles[k].token && Singles(names)[i] == singles[i].token;
    }
  }

  lemma PrefixDistinct(texts: seq<Text>, n: nat)
    requires Distinct(texts)
    ensures Distinct(Take(texts, n))
  {
  }

  lemma WordsAndNameDistinct(names: AdvisorNames)
    ensures var extra := if names.legal == [] || names.legal in Singles(names) then [] else [names.legal];
      Distinct(Singles(names) + extra)
  {
    hide Singles, IsWord;
    SinglesAreWords(names);
  }

  /** The emitted tokens are the distinct single words in field order, then the full legal
      name, cut at 32; words carry their most specific source as kind, and the full name,
      when emitted, always has kind `name`. */
  lemma TokensAreWordsThenName(names: AdvisorNames)
    ensures var tokens := TokensForAdvisor(names);
      var extra := if names.legal == [] || names.legal in Singles(names) then [] else [names.legal];
      && TokenTexts(tokens) == Take(Singles(names) + extra, 32)
      && Distinct(TokenTexts(tokens))
      && |tokens| <= 32
      && forall i :: 0 <= i < |tokens| ==>
           tokens[i].kind == if tokens[i].token == names.legal then Name
                             else Classify(names, tokens[i].token)
  {
    hide Singles, Classify, AllTokens, Distinct;
    AllTokensShape(names);
    WordsAndNameDistinct(names);
    TakeTexts(AllTokens(names));
    PrefixDistinct(TokenTexts(AllTokens(names)), MAX_TOKENS_PER_ADVISOR);
  }

  lemma SinglesNonempty(names: AdvisorNames)
    ensures [] !in Singles(names)
  {
    SinglesAreWords(names);
  }

  lemma NameIsStrongest(kind: TokenKind)
    ensures KindRank(Name) <= KindRank(kind) <==> kind == Name
  {
  }

  lemma TakeTexts(tokens: seq<AdvisorToken>)
    ensures TokenTexts(Take(tokens, MAX_TOKENS_PER_ADVISOR)) ==
            Take(TokenTexts(tokens), MAX_TOKENS_PER_ADVISOR)
  {
  }

  /** Some emitted token starts with `t`. */
  ghost predicate Matches(names: AdvisorNames, t: Text) {
    exists i :: 0 <= i < |TokensForAdvisor(names)| && t <= TokensForAdvisor(names)[i].token
  }

  /** Some emitted single word starts with `t`. */
  ghost predicate MatchesWord(names: AdvisorNames, t: Text) {
    exists i :: 0 <= i < |TokensForAdvisor(names)| &&
      t <= TokensForAdvisor(names)[i].token && IsWord(TokensForAdvisor(names)[i].token)
  }

  /** The legal name's first word is always emitted, whatever the cap cuts off. */
  lemma FirstWordSurvivesCap(names: AdvisorNames)
    requires SplitQueryTokens(names.legal) != []
    ensures TokensForAdvisor(names) != [] &&
            TokensForAdvisor(names)[0].token == SplitQueryTokens(names.legal)[0]
  {
    hide SplitQueryTokens, TokensForAdvisor;
    var legal := SplitQueryTokens(names.legal);
    var rest := SplitQueryTokens(names.first) + SplitQueryTokens(names.last) +
      SplitQueryTokens(names.preferred);
    assert legal + SplitQueryTokens(names.first) + SplitQueryTokens(names.last) +
      SplitQueryTokens(names.preferred) == legal + rest;
    assert (legal + rest)[1..] == legal[1..] + rest;
    assert [] + [legal[0]] == [legal[0]];
    UniqueOrderedIsDistinct([legal[0]], legal[1..] + rest);
    assert Singles(names) == UniqueOrdered([legal[0]], legal[1..] + rest);
    TokensAreWordsThenName(names);
    assert TokenTexts(TokensForAdvisor(names))[0] == legal[0];
  }

  /** The full-name token adds no matches: a query word that starts any emitted token also
      starts an emitted single word, even when the cap of 32 bites. */
  lemma FullNameAddsNoMatches(names: AdvisorNames, t: Text)
    requires IsWord(t)
    ensures Matches(names, t) <==> MatchesWord(names, t)
  {
    hide IsWord, TokensForAdvisor, Singles, Classify;
    if Matches(names, t) {
      var i :| 0 <= i < |TokensForAdvisor(names)| && t <= TokensForAdvisor(names)[i].token;
      var token := TokensForAdvisor(names)[i].token;
      TokensAreWordsThenName(names);
      SinglesAreWords(names);
      assert TokenTexts(TokensForAdvisor(names))[i] == token;
      if token == names.legal {
        LeadingWord(names.legal, t);
        FirstWordSurvivesCap(names);
        QueryTokensAreWords(names.legal, SplitQueryTokens(names.legal)[0]);
        assert t <= TokensForAdvisor(names)[0].token && IsWord(TokensForAdvisor(names)[0].token);
      } else {
        assert i < |Singles(names)| && Singles(names)[i] == token;
      }
    }
  }
}
