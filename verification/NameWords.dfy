/** Which words a name or a query is split into, and the kind a word is indexed under
    (src/lib/advisor-tokens.ts), read off the text itself. */
module NameWords {
  import opened Sequences
  import opened Texts
  import opened AdvisorTokens

  /** `s[i..j]` is a longest stretch without a separator. */
  ghost predicate Stretch(s: Text, i: int, j: int) {
    && 0 <= i < j <= |s|
    && (forall k :: i <= k < j ==> !IsSeparator(s[k]))
    && (i == 0 || IsSeparator(s[i - 1]))
    && (j == |s| || IsSeparator(s[j]))
  }

  /** The separators: full stop, comma, apostrophe, hyphen and white space. */
  lemma SeparatorIff(c: char)
    requires c as int < 0x80
    ensures IsSeparator(c as int as CodeUnit) <==>
      c in ".,'- \t\n\r" || c as int == 11 || c as int == 12
  {
  }

  ghost predicate Word(s: Text, t: Text) {
    |t| >= 2 && exists i, j :: 0 <= i < j <= |s| && Stretch(s, i, j) && t == s[i..j]
  }

  /** The spans lie in `s` from `from` on, in order and apart, and are its stretches of two code
      units or more, all of them; `tokens` are their texts. */
  ghost predicate Spells(s: Text, from: nat, spans: seq<(int, int)>, tokens: seq<Text>) {
    && |spans| == |tokens|
    && (forall k :: 0 <= k < |spans| ==>
          && from <= spans[k].0 && Stretch(s, spans[k].0, spans[k].1) && spans[k].1 - spans[k].0 >= 2
          && tokens[k] == s[spans[k].0..spans[k].1])
    && (forall k, l :: 0 <= k < l < |spans| ==> spans[k].1 < spans[l].0)
    && (forall i, j :: from <= i && Stretch(s, i, j) && j - i >= 2 ==> (i, j) in spans)
  }

  lemma {:induction false} SkipAt(s: Text) returns (n: nat)
    ensures n <= |s| && SkipSeparators(s) == s[n..]
    ensures forall k :: 0 <= k < n ==> IsSeparator(s[k])
    ensures n < |s| ==> !IsSeparator(s[n])
  {
    hide IsSeparator;
    if s == [] || !IsSeparator(s[0]) {
      n := 0;
    } else {
      n := SkipAt(s[1..]);
      n := n + 1;
    }
  }

  lemma FirstStretch(s: Text, from: nat, to: nat)
    requires from <= to <= |s| && (from == 0 || IsSeparator(s[from - 1]))
    requires forall k :: from <= k < to ==> !IsSeparator(s[k])
    requires to < |s| ==> IsSeparator(s[to])
    ensures from < to ==> Stretch(s, from, to)
    ensures forall i, j :: from <= i < to && Stretch(s, i, j) ==> i == from && j == to
  {
    hide IsSeparator;
    forall i, j | from <= i < to && Stretch(s, i, j) ensures i == from && j == to {
    }
  }

  lemma SplitStep(s: Text)
    ensures var i := FirstSeparator(s);
      Split(s) == [s[..i]] + if i == |s| then [] else Split(SkipSeparators(s[i..]))
  {
    hide FirstSeparator, SkipSeparators;
    assert s[..|s|] == s;
  }

  /** How the text from `from` on is split: the stretch up to the next separator, then, behind
      all separators that follow, the rest. */
  lemma SplitShape(s: Text, from: nat) returns (to: nat, m: nat)
    requires from <= |s|
    ensures from <= to <= m <= |s| && forall k :: from <= k < to ==> !IsSeparator(s[k])
    ensures forall k :: to <= k < m ==> IsSeparator(s[k])
    ensures to < |s| ==> to < m
    ensures Split(s[from..]) == [s[from..to]] + if to == |s| then [] else Split(s[m..])
  {
    hide IsSeparator, FirstSeparator, SkipSeparators, Split;
    var rest := s[from..];
    SplitStep(rest);
    var i := FirstSeparator(rest);
    to, m := from + i, |s|;
    assert rest[..i] == s[from..to] && rest[i..] == s[to..];
    forall k | from <= k < to ensures !IsSeparator(s[k]) {
      assert s[k] == rest[k - from];
    }
    if to < |s| {
      var n := SkipAt(rest[i..]);
      m := to + n;
      assert SkipSeparators(rest[i..]) == s[m..];
      assert rest[i..][0] == rest[i];
      forall k | to <= k < m ensures IsSeparator(s[k]) {
        assert s[k] == rest[i..][k - to];
      }
    }
  }

  lemma {:induction false} SplitSpans(s: Text, from: nat) returns (spans: seq<(int, int)>)
    requires from <= |s| && (from == 0 || IsSeparator(s[from - 1]))
    ensures Spells(s, from, spans, Filter(Split(s[from..]), LongEnough()))
    decreases |s| - from
  {
    hide IsSeparator, Filter, Stretch, Split, Spells;
    var to, m := SplitShape(s, from);
    FirstStretch(s, from, to);
    FilterStep(Split(s[from..]), LongEnough());
    var rest, tokens := [], [];
    if to == |s| {
      assert Split(s[from..])[1..] == [];
      FilterNone<Text>([], LongEnough());
      NothingSpelled(s);
      m := to;
    } else {
      assert Split(s[from..])[1..] == Split(s[m..]);
      tokens := Filter(Split(s[m..]), LongEnough());
      rest := SplitSpans(s, m);
    }
    SeparatorsHoldNoStretch(s, to, m);
    spans := (if to - from >= 2 then [(from, to)] else []) + rest;
    JoinSpans(s, from, to, m, rest, tokens);
  }

  lemma SeparatorsHoldNoStretch(s: Text, to: nat, m: nat)
    requires to <= m <= |s| && forall k :: to <= k < m ==> IsSeparator(s[k])
    ensures forall i, j :: to <= i < m ==> !Stretch(s, i, j)
  {
    hide IsSeparator;
    forall i, j | to <= i < m ensures !Stretch(s, i, j) {
      assert IsSeparator(s[i]);
    }
  }

  lemma JoinSpans(s: Text, from: nat, to: nat, m: nat, more: seq<(int, int)>, tokens: seq<Text>)
    requires from <= to <= m <= |s| && Spells(s, m, more, tokens)
    requires to < |s| ==> to < m
    requires from < to ==> Stretch(s, from, to)
    requires forall i, j :: from <= i < to && Stretch(s, i, j) ==> i == from && j == to
    requires forall i, j :: to <= i < m ==> !Stretch(s, i, j)
    ensures var first := to - from >= 2;
      Spells(s, from, (if first then [(from, to)] else []) + more, (if first then [s[from..to]] else []) + tokens)
  {
    hide Stretch;
    var first := to - from >= 2;
    var spans := (if first then [(from, to)] else []) + more;
    forall k | 0 <= k < |more| ensures to < more[k].0 {
      StretchFits(s, more[k].0, more[k].1);
    }
    forall i, j | from <= i && Stretch(s, i, j) && j - i >= 2 ensures (i, j) in spans {
      StretchFits(s, i, j);
      if i < to {
        assert spans[0] == (i, j);
      } else {
        assert (i, j) in more;
      }
    }
  }

  /** The query tokens are the texts of all stretches of two code units or more, in the order in
      which they stand in the text. */
  lemma QueryTokensAreStretches(s: Text)
    ensures exists spans :: Spells(s, 0, spans, SplitQueryTokens(s))
  {
    hide Split, Spells;
    var spans := SplitSpans(s, 0);
    assert s[0..] == s;
    if s == [] {
      NothingSpelled(s);
      assert Spells(s, 0, [], SplitQueryTokens(s));
    } else {
      assert Spells(s, 0, spans, SplitQueryTokens(s));
    }
  }

  lemma NothingSpelled(s: Text)
    ensures Spells(s, |s|, [], [])
  {
  }

  lemma SpelledIsWord(s: Text, spans: seq<(int, int)>, tokens: seq<Text>, t: Text)
    requires Spells(s, 0, spans, tokens) && t in tokens
    ensures Word(s, t)
  {
    hide Stretch;
    var k :| 0 <= k < |tokens| && tokens[k] == t;
    var (i, j) := spans[k];
    StretchFits(s, i, j);
    assert Stretch(s, i, j) && t == s[i..j];
  }

  lemma WordIsSpelled(s: Text, spans: seq<(int, int)>, tokens: seq<Text>, t: Text)
    requires Spells(s, 0, spans, tokens) && Word(s, t)
    ensures t in tokens
  {
    hide Stretch;
    var i, j :| 0 <= i < j <= |s| && Stretch(s, i, j) && t == s[i..j];
    StretchFits(s, i, j);
    assert (i, j) in spans;
    var k :| 0 <= k < |spans| && spans[k] == (i, j);
    assert tokens[k] == t;
  }

  lemma QueryTokenIff(s: Text, t: Text)
    ensures t in SplitQueryTokens(s) <==> Word(s, t)
  {
    hide SplitQueryTokens, Stretch, Spells;
    QueryTokensAreStretches(s);
    var spans: seq<(int, int)> :| Spells(s, 0, spans, SplitQueryTokens(s));
    if t in SplitQueryTokens(s) {
      SpelledIsWord(s, spans, SplitQueryTokens(s), t);
    }
    if Word(s, t) {
      WordIsSpelled(s, spans, SplitQueryTokens(s), t);
    }
  }

  lemma StretchFits(s: Text, i: int, j: int)
    requires Stretch(s, i, j)
    ensures 0 <= i < j <= |s| && |s[i..j]| == j - i
  {
  }

  // ---------------------------------------------------------------- order and kinds

  lemma {:induction false} UniqueFollows(all: seq<Text>, done: nat, acc: seq<Text>)
    requires done <= |all| && InFirstOrder(all, acc)
    requires forall t :: t in acc <==> t in all[..done]
    ensures InFirstOrder(all, UniqueOrdered(acc, all[done..]))
    decreases |all| - done
  {
    hide FirstIndex;
    if done == |all| {
      assert all[done..] == [];
    } else {
      var t := all[done];
      var next := if t in acc then acc else acc + [t];
      assert all[done..][0] == t && all[done..][1..] == all[done + 1..];
      assert all[..done + 1] == all[..done] + [t];
      if t !in acc {
        NewIsLater(all, done, acc);
      }
      UniqueFollows(all, done + 1, next);
    }
  }

  /** The single words of an advisor: every word of the four fields once, in the order legal,
      first, last, preferred and, within a field, of the text. */
  lemma SinglesAreFieldWords(names: AdvisorNames)
    ensures var singles := Singles(names);
      && (forall t :: t in singles <==>
            Word(names.legal, t) || Word(names.first, t) || Word(names.last, t) || Word(names.preferred, t))
      && Distinct(singles)
      && InFirstOrder(
           SplitQueryTokens(names.legal) + SplitQueryTokens(names.first) + SplitQueryTokens(names.last) +
             SplitQueryTokens(names.preferred),
           singles)
  {
    hide SplitQueryTokens, Word, FirstIndex;
    var all := SplitQueryTokens(names.legal) + SplitQueryTokens(names.first) +
      SplitQueryTokens(names.last) + SplitQueryTokens(names.preferred);
    UniqueOrderedIsDistinct([], all);
    assert all[0..] == all && all[..0] == [];
    UniqueFollows(all, 0, []);
    forall t ensures t in Singles(names) <==>
      Word(names.legal, t) || Word(names.first, t) || Word(names.last, t) || Word(names.preferred, t)
    {
      QueryTokenIff(names.legal, t);
      QueryTokenIff(names.first, t);
      QueryTokenIff(names.last, t);
      QueryTokenIff(names.preferred, t);
    }
  }

  /** A token is indexed as the whole name, else as a last name, else as a first name, else as a
      preferred name, else as part of the name, by the fields it is a word of. */
  lemma TokenKindIff(names: AdvisorNames, i: nat)
    requires i < |TokensForAdvisor(names)|
    ensures var AdvisorToken(t, kind) := TokensForAdvisor(names)[i];
      var whole, last, first, preferred :=
        t == names.legal, Word(names.last, t), Word(names.first, t), Word(names.preferred, t);
      && (kind == LastName <==> !whole && last)
      && (kind == FirstName <==> !whole && !last && first)
      && (kind == PreferredName <==> !whole && !last && !first && preferred)
      && (kind == Name <==> whole || !(last || first || preferred))
  {
    hide SplitQueryTokens, Word, TokensForAdvisor, Singles;
    TokensAreWordsThenName(names);
    var t := TokensForAdvisor(names)[i].token;
    QueryTokenIff(names.last, t);
    QueryTokenIff(names.first, t);
    QueryTokenIff(names.preferred, t);
  }
}
