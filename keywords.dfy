/** Keyword derivation for a product (`Product.generate_keywords`): name and tagline are
    joined with ", ", the separators `&`, `|` and `-` become commas, the text is split on
    commas, the pieces are put in a set, and the non-empty stripped pieces are joined with
    ", ". The set's iteration order is not specified, so it is a parameter here and every
    property below holds for any order. */
module Keywords {
  import opened Text

  /** The characters that end a keyword. */
  predicate IsSeparator(c: char) {
    c == ',' || c == '&' || c == '|' || c == '-'
  }

  /** A keyword as it appears in the output: not empty, no whitespace at either end and
      no separator inside. */
  predicate IsToken(t: string) {
    && t != ""
    && !IsSpace(t[0]) && !IsSpace(t[|t| - 1])
    && forall c :: c in t ==> !IsSeparator(c)
  }

  /** `name + ", " + tagline` after the three `replace` calls: only commas separate. */
  function Normalized(name: string, tagline: string): (s: string)
    ensures forall c :: c in s ==> c != '&' && c != '|' && c != '-'
  {
    ReplaceChar(ReplaceChar(ReplaceChar(name + ", " + tagline, '&', ','), '|', ','), '-', ',')
  }

  /** The result of `.split(",")` on the normalized text, empty pieces included. */
  function Fragments(name: string, tagline: string): (fs: seq<string>)
    ensures forall f, c :: f in fs && c in f ==> !IsSeparator(c)
  {
    var fs := Split(Normalized(name, tagline), ',');
    assert forall f, c :: f in fs && c in f ==> !IsSeparator(c) by {
      forall f, c | f in fs && c in f ensures !IsSeparator(c) {
        SplitPieceCharacters(Normalized(name, tagline), ',', f, c);
      }
    }
    fs
  }

  /** The Python set built from the fragments: duplicates are removed before stripping. */
  function FragmentSet(name: string, tagline: string): set<string> {
    set f | f in Fragments(name, tagline)
  }

  /** `order` lists each element of `words` exactly once: one iteration order of the set. */
  predicate Enumerates(order: seq<string>, words: set<string>) {
    && (forall i, j :: 0 <= i < j < |order| ==> order[i] != order[j])
    && (forall w :: w in order ==> w in words)
    && (forall w :: w in words ==> w in order)
  }

  /** The comprehension `[w.strip() for w in words if w.strip()]`, over `words` in order. */
  function Tokens(words: seq<string>): (ts: seq<string>)
    ensures |ts| <= |words|
    ensures "" !in ts
  {
    if words == [] then []
    else
      var t := Strip(words[0]);
      if t != "" then [t] + Tokens(words[1..]) else Tokens(words[1..])
  }

  /** The kept pieces are exactly the non-empty stripped forms of the words. */
  lemma {:induction false} TokensMembership(words: seq<string>, t: string)
    ensures t in Tokens(words) <==> t != "" && exists w :: w in words && Strip(w) == t
  {
    if words != [] {
      TokensMembership(words[1..], t);
      if t != "" && exists w :: w in words && Strip(w) == t {
        var w :| w in words && Strip(w) == t;
        if w != words[0] {
          assert w in words[1..];
        }
      }
      if t in Tokens(words) && t != Strip(words[0]) {
        var w :| w in words[1..] && Strip(w) == t;
        assert w in words;
      }
    }
  }

  /** `generate_keywords`, with the set's iteration order given as `order`. */
  function KeywordsInOrder(name: string, tagline: string, order: seq<string>): string
    requires Enumerates(order, FragmentSet(name, tagline))
  {
    Join(Tokens(order), ", ")
  }

  /** The keyword line, split on commas and stripped, lists exactly the keywords in the
      order the set gave them. */
  lemma KeywordsLineReadsBack(name: string, tagline: string, order: seq<string>)
    requires Enumerates(order, FragmentSet(name, tagline))
    ensures Tokens(Split(KeywordsInOrder(name, tagline, order), ',')) == Tokens(order)
  {
    TokensAreWellFormed(name, tagline, order);
    KeywordsParseBack(Tokens(order));
  }

  /** The distinct elements of `s` in order of first occurrence: one order that exists for
      every set of fragments. */
  function Distinct(s: seq<string>): (d: seq<string>)
    ensures Enumerates(d, set w | w in s)
  {
    if s == [] then []
    else
      var d := Distinct(s[..|s| - 1]);
      var last := s[|s| - 1];
      assert s == s[..|s| - 1] + [last];
      if last in d then d else d + [last]
  }

  /** The keyword string a product stores: the fragment set taken in first-occurrence order. */
  function GenerateKeywords(name: string, tagline: string): (line: string)
    ensures forall t :: t in Tokens(Split(line, ',')) <==>
      t != "" && exists f :: f in Fragments(name, tagline) && Strip(f) == t
  {
    var order := Distinct(Fragments(name, tagline));
    assert forall t :: t in Tokens(order) <==> t != "" && exists f :: f in Fragments(name, tagline) && Strip(f) == t by {
      forall t ensures t in Tokens(order) <==> t != "" && exists f :: f in Fragments(name, tagline) && Strip(f) == t {
        TokenSetExact(name, tagline, order, t);
      }
    }
    KeywordsLineReadsBack(name, tagline, order);
    KeywordsInOrder(name, tagline, order)
  }

  lemma {:induction false} TokensAppend(a: seq<string>, b: seq<string>)
    ensures Tokens(a + b) == Tokens(a) + Tokens(b)
  {
    if a == [] {
      assert a + b == b;
    } else {
      assert (a + b)[1..] == a[1..] + b;
      assert (a + b)[0] == a[0];
      TokensAppend(a[1..], b);
    }
  }

  /** Every output keyword is well formed, whatever the iteration order. */
  lemma {:induction false} TokensAreWellFormed(name: string, tagline: string, order: seq<string>)
    requires Enumerates(order, FragmentSet(name, tagline))
    ensures forall t :: t in Tokens(order) ==> IsToken(t)
  {
    forall t | t in Tokens(order) ensures IsToken(t) {
      TokensMembership(order, t);
      var w :| w in order && Strip(w) == t;
      assert w in Fragments(name, tagline);
      StrippedFragmentIsToken(name, tagline, w);
    }
  }

  lemma {:induction false} StrippedFragmentIsToken(name: string, tagline: string, w: string)
    requires w in Fragments(name, tagline) && Strip(w) != ""
    ensures IsToken(Strip(w))
  {
    var t := Strip(w);
    forall c | c in t ensures !IsSeparator(c) {
      assert c in multiset(t);
      assert c in multiset(w);
    }
  }

  /** The output keywords are exactly the non-empty stripped fragments. */
  lemma {:induction false} TokenSetExact(name: string, tagline: string, order: seq<string>, t: string)
    requires Enumerates(order, FragmentSet(name, tagline))
    ensures t in Tokens(order) <==> t != "" && exists f :: f in Fragments(name, tagline) && Strip(f) == t
  {
    TokensMembership(order, t);
    if t != "" && exists f :: f in Fragments(name, tagline) && Strip(f) == t {
      var f :| f in Fragments(name, tagline) && Strip(f) == t;
      assert f in FragmentSet(name, tagline);
    }
  }

  /** Over distinct words, a keyword occurs once per distinct word that strips to it. */
  lemma {:induction false} TokenMultiplicity(words: seq<string>, t: string)
    requires forall i, j :: 0 <= i < j < |words| ==> words[i] != words[j]
    requires t != ""
    ensures multiset(Tokens(words))[t] == |StrippingTo(words, t)|
  {
    if words != [] {
      var rest := words[1..];
      assert forall i, j :: 0 <= i < j < |rest| ==> rest[i] != rest[j] by {
        forall i, j | 0 <= i < j < |rest| ensures rest[i] != rest[j] {
          assert rest[i] == words[i + 1] && rest[j] == words[j + 1];
        }
      }
      TokenMultiplicity(rest, t);
      HeadNotInTail(words);
      StrippingToCons(words, t);
      if Strip(words[0]) != "" {
        assert Tokens(words) == [Strip(words[0])] + Tokens(rest);
      } else {
        assert Tokens(words) == Tokens(rest);
      }
    }
  }

  /** The words of `words` whose stripped form is `t`. */
  function StrippingTo(words: seq<string>, t: string): set<string> {
    set w | w in words && Strip(w) == t
  }

  lemma {:induction false} StrippingToCons(words: seq<string>, t: string)
    requires words != []
    ensures StrippingTo(words, t) ==
      (if Strip(words[0]) == t then {words[0]} else {}) + StrippingTo(words[1..], t)
  {
    assert words == [words[0]] + words[1..];
  }

  lemma {:induction false} HeadNotInTail(words: seq<string>)
    requires words != []
    requires forall i, j :: 0 <= i < j < |words| ==> words[i] != words[j]
    ensures words[0] !in words[1..]
  {
  }

  /** How often a keyword appears: once per distinct raw fragment that strips to it. So a
      repeated keyword comes from fragments differing only in surrounding whitespace, and
      the multiset of keywords does not depend on the iteration order. */
  lemma {:induction false} KeywordTokenCount(name: string, tagline: string, order: seq<string>, t: string)
    requires Enumerates(order, FragmentSet(name, tagline))
    requires t != ""
    ensures multiset(Tokens(order))[t] == |StrippingTo(Fragments(name, tagline), t)|
  {
    TokenMultiplicity(order, t);
    assert StrippingTo(order, t) == StrippingTo(Fragments(name, tagline), t);
  }

  /** Two iteration orders of the same set give the same keywords, up to order. */
  lemma {:induction false} KeywordsOrderIndependent(name: string, tagline: string, o1: seq<string>, o2: seq<string>)
    requires Enumerates(o1, FragmentSet(name, tagline))
    requires Enumerates(o2, FragmentSet(name, tagline))
    ensures multiset(Tokens(o1)) == multiset(Tokens(o2))
  {
    forall t ensures multiset(Tokens(o1))[t] == multiset(Tokens(o2))[t] {
      if t != "" {
        KeywordTokenCount(name, tagline, o1, t);
        KeywordTokenCount(name, tagline, o2, t);
      } else {
        assert t !in Tokens(o1) && t !in Tokens(o2);
      }
    }
  }

  /** A product whose tagline repeats its name, both some keyword `w`: the fragments `w`
      and " " + `w` are distinct before stripping, so the set keeps both and the keyword
      string lists `w` twice, in either iteration order. */
  lemma {:induction false} RepeatedNameKeywords(w: string)
    requires IsToken(w)
    ensures Fragments(w, w) == [w, " " + w]
    ensures FragmentSet(w, w) == {w, " " + w} && w != " " + w
    ensures KeywordsInOrder(w, w, [w, " " + w]) == w + ", " + w
    ensures KeywordsInOrder(w, w, [" " + w, w]) == w + ", " + w
  {
    RepeatedNameFragments(w);
    assert |w| != |" " + w|;
    RepeatedNameTokens(w);
    assert Join([w, w], ", ") == w + ", " + Join([w], ", ");
  }

  lemma {:induction false} RepeatedNameTokens(w: string)
    requires IsToken(w)
    ensures Tokens([w, " " + w]) == [w, w] && Tokens([" " + w, w]) == [w, w]
  {
    assert Tokens([w]) == [w] by {
      TokensOfPadded("", w);
      assert "" + w == w;
    }
    assert Tokens([" " + w]) == [w] by {
      TokensOfPadded(" ", w);
    }
    TokensAppend([w], [" " + w]);
    TokensAppend([" " + w], [w]);
    assert [w] + [" " + w] == [w, " " + w];
    assert [" " + w] + [w] == [" " + w, w];
  }

  lemma {:induction false} RepeatedNameFragments(w: string)
    requires IsToken(w)
    ensures Fragments(w, w) == [w, " " + w]
  {
    var text := w + ", " + w;
    assert text == w + [','] + (" " + w);
    forall c | IsSeparator(c) && c != ',' ensures c !in text {
      assert c !in w;
    }
    assert ',' !in w && ',' !in " " + w;
    ReplaceAbsent(text, '&', ',');
    ReplaceAbsent(text, '|', ',');
    ReplaceAbsent(text, '-', ',');
    SplitAround(w, " " + w, ',');
    SplitWithoutSeparator(w, ',');
    SplitWithoutSeparator(" " + w, ',');
  }

  lemma {:induction false} TokensOfPadded(lead: string, w: string)
    requires AllSpace(lead)
    requires w != [] && !IsSpace(w[0]) && !IsSpace(w[|w| - 1])
    ensures Tokens([lead + w]) == [w]
  {
    StripAfterSpace(lead, w);
    TokensOfOne(lead + w);
  }

  lemma {:induction false} TokensOfOne(w: string)
    ensures Tokens([w]) == if Strip(w) == "" then [] else [Strip(w)]
  {
    assert [w][1..] == [];
  }

  lemma {:induction false} ParseBackFrom(lead: string, toks: seq<string>)
    requires AllSpace(lead) && ',' !in lead
    requires forall t :: t in toks ==> IsToken(t)
    ensures Tokens(Split(lead + Join(toks, ", "), ',')) == toks
    decreases |toks|
  {
    if toks == [] {
      assert lead + Join(toks, ", ") == lead;
      SplitWithoutSeparator(lead, ',');
      TokensOfOne(lead);
    } else if |toks| == 1 {
      assert IsToken(toks[0]);
      assert lead + Join(toks, ", ") == lead + toks[0];
      PaddedTokenUnsplit(lead, toks[0]);
      TokensOfPadded(lead, toks[0]);
    } else {
      var rest := toks[1..];
      assert forall u :: u in rest ==> u in toks;
      ParseBackFrom(" ", rest);
      assert IsToken(toks[0]);
      ParseBackStep(lead, toks[0], rest);
      assert [toks[0]] + rest == toks;
    }
  }

  lemma {:induction false} ParseBackStep(lead: string, t: string, rest: seq<string>)
    requires AllSpace(lead) && ',' !in lead && IsToken(t) && rest != []
    requires Tokens(Split(" " + Join(rest, ", "), ',')) == rest
    ensures Tokens(Split(lead + Join([t] + rest, ", "), ',')) == [t] + rest
  {
    var first, tail := lead + t, " " + Join(rest, ", ");
    JoinFront(lead, t, rest);
    SplitAround(first, tail, ',');
    PaddedTokenUnsplit(lead, t);
    TokensOfPadded(lead, t);
    TokensAppend([first], Split(tail, ','));
  }

  /** The first keyword of a joined line, and the ", " after it. */
  lemma JoinFront(lead: string, t: string, rest: seq<string>)
    requires rest != []
    ensures lead + Join([t] + rest, ", ") == (lead + t) + [','] + (" " + Join(rest, ", "))
  {
    assert ([t] + rest)[1..] == rest;
    var r := Join(rest, ", ");
    assert Join([t] + rest, ", ") == t + ", " + r;
    assert ", " == [','] + " ";
  }

  lemma {:induction false} PaddedTokenUnsplit(lead: string, t: string)
    requires ',' !in lead && IsToken(t)
    ensures Split(lead + t, ',') == [lead + t]
  {
    assert forall c :: c in lead + t ==> c in lead || c in t;
    SplitWithoutSeparator(lead + t, ',');
  }

  /** Reading the keyword string back — split on commas, strip, drop empties — gives the
      keyword list that was joined. */
  lemma {:induction false} KeywordsParseBack(toks: seq<string>)
    requires forall t :: t in toks ==> IsToken(t)
    ensures Tokens(Split(Join(toks, ", "), ',')) == toks
  {
    ParseBackFrom("", toks);
    assert "" + Join(toks, ", ") == Join(toks, ", ");
  }

  /** Deriving keywords again from a keyword string (as the name, with an empty tagline)
      yields the same set of keywords. */
  lemma {:induction false} KeywordsIdempotent(name: string, tagline: string, order: seq<string>, order2: seq<string>)
    requires Enumerates(order, FragmentSet(name, tagline))
    requires Enumerates(order2, FragmentSet(KeywordsInOrder(name, tagline, order), ""))
    ensures forall t :: t in Tokens(order2) <==> t in Tokens(order)
  {
    var toks := Tokens(order);
    var out := KeywordsInOrder(name, tagline, order);
    assert out == Join(toks, ", ");
    TokensAreWellFormed(name, tagline, order);
    assert Fragments(out, "") == Split(out, ',') + [" "] by {
      KeywordStringFragments(toks);
    }
    assert Tokens(Fragments(out, "")) == toks by {
      KeywordsParseBack(toks);
      TokensAppend(Split(out, ','), [" "]);
      TokensOfOne(" ");
    }
    forall t ensures t in Tokens(order2) <==> t in toks {
      TokenSetExact(out, "", order2, t);
      TokensMembership(Fragments(out, ""), t);
    }
  }

  /** A keyword string, fed back in as a name with an empty tagline, splits into the
      pieces of the keyword string plus the trailing " " of the ", " that follows it. */
  lemma {:induction false} KeywordStringFragments(toks: seq<string>)
    requires forall t :: t in toks ==> IsToken(t)
    ensures Fragments(Join(toks, ", "), "") == Split(Join(toks, ", "), ',') + [" "]
  {
    var out := Join(toks, ", ");
    var text := out + ", " + "";
    assert forall c :: c in text ==> !(c == '&' || c == '|' || c == '-') by {
      forall c | c in text ensures !(c == '&' || c == '|' || c == '-') {
        assert text == out + ", ";
        if c in out {
          JoinCharacters(toks, ", ", c);
        }
      }
    }
    ReplaceAbsent(text, '&', ',');
    ReplaceAbsent(text, '|', ',');
    ReplaceAbsent(text, '-', ',');
    assert Normalized(out, "") == out + [','] + " ";
    SplitAround(out, " ", ',');
    SplitWithoutSeparator(" ", ',');
  }
}
