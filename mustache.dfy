/**
 * The placeholder registry: the delimiter tokens in replacement order and the
 * shape of the salted placeholder strings that stand for them.
 */
module Placeholders {
  import opened Text

  /** The token list as written in the source, with `{{/` listed twice. */
  const RawTokens: seq<string> := ["{{{", "}}}", "{{#", "{{^", "{{/", "{{/", "{{", "}}"]

  /** The keys of the placeholder array, in replacement order. */
  const Tokens: seq<string> := ["{{{", "}}}", "{{#", "{{^", "{{/", "{{", "}}"]

  const Stem: string := "_amp_mustache_"

  /**
   * The keys of an array built by assigning `$array[$token]` for each listed
   * token in turn: a key assigned again keeps the place of its first
   * assignment. The keys are pairwise distinct and are exactly the tokens.
   */
  function Keys(toks: seq<string>): seq<string>
    decreases |toks|
  {
    if toks == [] then []
    else
      var front, t := Keys(toks[..|toks| - 1]), toks[|toks| - 1];
      if t in front then front else front + [t]
  }

  /** The keys are pairwise distinct, and a string is a key exactly when it is one of the tokens. */
  lemma {:induction false} KeysDistinct(toks: seq<string>)
    ensures forall i, j :: 0 <= i < j < |Keys(toks)| ==> Keys(toks)[i] != Keys(toks)[j]
    ensures forall t :: t in Keys(toks) <==> t in toks
    decreases |toks|
  {
    if toks != [] {
      var init, t := toks[..|toks| - 1], toks[|toks| - 1];
      KeysDistinct(init);
      assert toks == init + [t];
    }
  }

  /**
   * The placeholder array has seven keys: the second `{{/` adds nothing, and
   * the others keep the order in which they are listed.
   */
  lemma TokenTableHasSevenEntries()
    ensures Keys(RawTokens) == Tokens
    ensures forall i, j :: 0 <= i < j < |Tokens| ==> Tokens[i] != Tokens[j]
  {
    KeysOfRawTokens();
    KeysDistinct(RawTokens);
  }

  lemma KeysOfRawTokens()
    ensures Keys(RawTokens) == Tokens
  {
    KeysOfList(RawTokens);
  }

  /** A list spelled as the source's token list. */
  predicate SpelledAsRaw(r: seq<string>)
  {
    && |r| == 8 && r[0] == "{{{" && r[1] == "}}}" && r[2] == "{{#" && r[3] == "{{^"
    && r[4] == "{{/" && r[5] == "{{/" && r[6] == "{{" && r[7] == "}}"
  }

  /** The fold over such a list, two assignments at a time. */
  lemma KeysOfList(r: seq<string>)
    requires SpelledAsRaw(r)
    ensures Keys(r) == ["{{{", "}}}", "{{#", "{{^", "{{/", "{{", "}}"]
  {
    KeysOfSix(r);
    KeysNew(r, 6, ["{{{", "}}}", "{{#", "{{^", "{{/"]);
    KeysNew(r, 7, ["{{{", "}}}", "{{#", "{{^", "{{/", "{{"]);
    assert r[..8] == r;
  }

  lemma KeysOfSix(r: seq<string>)
    requires SpelledAsRaw(r)
    ensures Keys(r[..6]) == ["{{{", "}}}", "{{#", "{{^", "{{/"]
  {
    KeysOfFour(r);
    KeysNew(r, 4, ["{{{", "}}}", "{{#", "{{^"]);
    KeysOld(r, 5, ["{{{", "}}}", "{{#", "{{^", "{{/"], 4);
  }

  lemma KeysOfFour(r: seq<string>)
    requires SpelledAsRaw(r)
    ensures Keys(r[..4]) == ["{{{", "}}}", "{{#", "{{^"]
  {
    KeysOfTwo(r);
    KeysNew(r, 2, ["{{{", "}}}"]);
    KeysNew(r, 3, ["{{{", "}}}", "{{#"]);
  }

  lemma KeysOfTwo(r: seq<string>)
    requires SpelledAsRaw(r)
    ensures Keys(r[..2]) == ["{{{", "}}}"]
  {
    assert Keys(r[..0]) == [];
    KeysNew(r, 0, []);
    KeysNew(r, 1, ["{{{"]);
  }

  /** A token not among the keys so far, told apart from each by its length or last character, is appended. */
  lemma KeysNew(toks: seq<string>, i: nat, ks: seq<string>)
    requires i < |toks| && Keys(toks[..i]) == ks && toks[i] != []
    requires forall k :: 0 <= k < |ks| ==> |ks[k]| != |toks[i]| || ks[k][|ks[k]| - 1] != toks[i][|toks[i]| - 1]
    ensures Keys(toks[..i + 1]) == ks + [toks[i]]
  {
    assert toks[..i + 1][..i] == toks[..i];
    assert toks[i] !in ks;
  }

  /** A token already among the keys adds nothing. */
  lemma KeysOld(toks: seq<string>, i: nat, ks: seq<string>, k: nat)
    requires i < |toks| && Keys(toks[..i]) == ks && k < |ks| && ks[k] == toks[i]
    ensures Keys(toks[..i + 1]) == ks
  {
    assert toks[..i + 1][..i] == toks[..i];
  }

  /** A character that can occur in a placeholder: `_`, a lower-case letter or a digit. */
  predicate IsPlaceholderChar(c: char)
  {
    c == '_' || ('a' <= c <= 'z') || ('0' <= c <= '9')
  }

  /** `'_amp_mustache_' . md5(...)`: the stem followed by 32 lower-case hex digits. */
  predicate PlaceholderShape(p: string)
  {
    |p| == 46 && p[..14] == Stem && forall i :: 14 <= i < 46 ==> IsLowerHex(p[i])
  }

  /** One placeholder per token, each of the source's shape, pairwise distinct. */
  predicate ValidPlaceholders(ph: seq<string>)
  {
    && |ph| == |Tokens|
    && (forall k :: 0 <= k < |ph| ==> PlaceholderShape(ph[k]))
    && (forall j, k :: 0 <= j < k < |ph| ==> ph[j] != ph[k])
  }

  /** The input holds no placeholder string. */
  predicate FreeOfPlaceholders(s: string, ph: seq<string>)
  {
    forall k :: 0 <= k < |ph| ==> Absent(ph[k], s)
  }

}

/**
 * The amp-mustache delimiter placeholders of `AMP_DOM_Utils`: before the
 * document is parsed, seven template delimiters are replaced by salted
 * placeholder strings with one ordered `str_replace`; after a node is
 * serialised the placeholders are replaced back by a second `str_replace`
 * with the two arrays swapped.
 *
 * The salt (`wp_rand`, `md5`) and the function-level cache are outside the
 * model: the placeholder table is a parameter, and `ValidPlaceholders` states
 * what the source's construction guarantees about it.
 *
 * The round-trip proof works on a view of the text as a sequence of pieces:
 * literal characters, placeholders, and (during decoding) restored delimiters.
 */
module Mustache {
  import opened Text
  import opened Placeholders

  /**
   * Encoding before parsing: `str_replace(array_keys($p), array_values($p), $document)`.
   * No `{{` or `}}` is left afterwards (`{{{x}}}` becomes two placeholders
   * around `x`, because the three-brace tokens are replaced first), and text
   * without braces is left as it is.
   */
  function Encode(s: string, ph: seq<string>): (r: string)
    requires ValidPlaceholders(ph)
    ensures Absent("{{", r) && Absent("}}", r)
    ensures Lacks(s, '{') && Lacks(s, '}') ==> r == s
  {
    EncodingLeavesNoDoubleBrace(s, ph);
    EncodingWithoutBraces(s, ph);
    ReplaceEach(s, Tokens, ph)
  }

  /**
   * Decoding after serialising: `str_replace(array_values($p), array_keys($p), $html)`.
   * Text holding none of the placeholders is left as it is.
   */
  function Decode(s: string, ph: seq<string>): (r: string)
    requires ValidPlaceholders(ph)
    ensures FreeOfPlaceholders(s, ph) ==> r == s
  {
    DecodingWithoutPlaceholders(s, ph);
    ReplaceEach(s, ph, Tokens)
  }

  lemma EncodingWithoutBraces(s: string, ph: seq<string>)
    requires ValidPlaceholders(ph)
    ensures Lacks(s, '{') && Lacks(s, '}') ==> ReplaceEach(s, Tokens, ph) == s
  {
    if Lacks(s, '{') && Lacks(s, '}') {
      forall k | 0 <= k < |Tokens|
        ensures Absent(Tokens[k], s)
      {
        TokenChars(k);
        LacksAbsent(s, Tokens[k]);
      }
      ReplaceEachAbsent(s, Tokens, ph);
    }
  }

  lemma DecodingWithoutPlaceholders(s: string, ph: seq<string>)
    requires ValidPlaceholders(ph)
    ensures FreeOfPlaceholders(s, ph) ==> ReplaceEach(s, ph, Tokens) == s
  {
    if FreeOfPlaceholders(s, ph) {
      ReplaceEachAbsent(s, ph, Tokens);
    }
  }

  // ---------------------------------------------------------------------------
  // Facts about the two alphabets

  lemma PlaceholderCharsAt(p: string, i: int)
    requires PlaceholderShape(p) && 0 <= i < |p|
    ensures IsPlaceholderChar(p[i])
    ensures p[0] == '_' && p[1] == 'a' && p[2] == 'm'
  {
    assert p[..14][0] == p[0] && p[..14][1] == p[1] && p[..14][2] == p[2];
    if i < 14 {
      assert p[..14][i] == p[i];
    }
  }

  lemma PlaceholderChars(p: string)
    requires PlaceholderShape(p)
    ensures forall i :: 0 <= i < |p| ==> IsPlaceholderChar(p[i])
    ensures p[0] == '_'
  {
    forall i | 0 <= i < |p| ensures IsPlaceholderChar(p[i]) {
      PlaceholderCharsAt(p, i);
    }
    PlaceholderCharsAt(p, 0);
  }

  lemma TokenChars(k: int)
    requires 0 <= k < |Tokens|
    ensures |Tokens[k]| >= 2
    ensures forall i :: 0 <= i < |Tokens[k]| ==> !IsPlaceholderChar(Tokens[k][i])
    ensures Tokens[k][0] == '{' || Tokens[k][0] == '}'
  {
  }

  /**
   * No proper suffix of a placeholder is a prefix of another (or the same)
   * placeholder, so a placeholder occurrence can never overlap a different one.
   */
  lemma {:induction false} NoOverlap(p: string, q: string, i: int)
    requires PlaceholderShape(p) && PlaceholderShape(q) && 0 < i < 46
    ensures p[i..] != q[..46 - i]
  {
    assert p[..14] == "_amp_mustache_" && q[..14] == "_amp_mustache_";
    assert q[0] == q[..14][0] && q[1] == q[..14][1] && q[2] == q[..14][2];
    if i >= 14 {
      assert IsLowerHex(p[i]);
      assert p[i..][0] != q[..46 - i][0];
    } else if i == 4 {
      assert p[5] == p[..14][5];
      assert p[i..][1] != q[..46 - i][1];
    } else if i == 13 {
      assert IsLowerHex(p[15]);
      assert p[i..][2] != q[..46 - i][2];
    } else {
      assert p[i] == p[..14][i];
      assert p[i..][0] != q[..46 - i][0];
    }
  }

  // ---------------------------------------------------------------------------
  // The piece view

  /** A literal character, a placeholder `ph[k]`, or a restored token `Tokens[k]`. */
  datatype Piece = Lit(c: char) | Ph(k: nat) | Tk(k: nat)

  predicate PieceOk(p: Piece)
  {
    match p
    case Lit(_) => true
    case Ph(k) => k < |Tokens|
    case Tk(k) => k < |Tokens|
  }

  predicate WF(ps: seq<Piece>)
  {
    forall i :: 0 <= i < |ps| ==> PieceOk(ps[i])
  }

  predicate NoTk(ps: seq<Piece>)
  {
    forall i :: 0 <= i < |ps| ==> !ps[i].Tk?
  }

  function Render(p: Piece, ph: seq<string>): string
    requires PieceOk(p) && |ph| == |Tokens|
  {
    match p
    case Lit(c) => [c]
    case Ph(k) => ph[k]
    case Tk(k) => Tokens[k]
  }

  function Flatten(ps: seq<Piece>, ph: seq<string>): string
    requires WF(ps) && |ph| == |Tokens|
    decreases |ps|
  {
    if ps == [] then [] else Render(ps[0], ph) + Flatten(ps[1..], ph)
  }

  function Lits(s: string): (ps: seq<Piece>)
    ensures |ps| == |s| && WF(ps) && NoTk(ps)
    ensures forall i :: 0 <= i < |s| ==> ps[i] == Lit(s[i])
  {
    seq(|s|, i requires 0 <= i < |s| => Lit(s[i]))
  }

  /** The characters of the maximal run of literal pieces at the front. */
  function LitRun(ps: seq<Piece>): (r: string)
    ensures |r| <= |ps|
    ensures forall i :: 0 <= i < |r| ==> ps[i] == Lit(r[i])
    ensures |r| < |ps| ==> !ps[|r|].Lit?
    decreases |ps|
  {
    if ps == [] || !ps[0].Lit? then [] else [ps[0].c] + LitRun(ps[1..])
  }

  lemma {:induction false} FlattenAppend(xs: seq<Piece>, ys: seq<Piece>, ph: seq<string>)
    requires WF(xs) && WF(ys) && |ph| == |Tokens|
    ensures WF(xs + ys)
    ensures Flatten(xs + ys, ph) == Flatten(xs, ph) + Flatten(ys, ph)
    decreases |xs|
  {
    if xs != [] {
      assert (xs + ys)[1..] == xs[1..] + ys;
      FlattenAppend(xs[1..], ys, ph);
    } else {
      assert xs + ys == ys;
    }
  }

  lemma {:induction false} FlattenLits(s: string, ph: seq<string>)
    requires |ph| == |Tokens|
    ensures Flatten(Lits(s), ph) == s
    decreases |s|
  {
    if s != [] {
      assert Lits(s)[1..] == Lits(s[1..]);
      FlattenLits(s[1..], ph);
    }
  }

  /** The front literal run spells itself, then the rest follows. */
  lemma {:induction false} FlattenSplitRun(ps: seq<Piece>, ph: seq<string>)
    requires WF(ps) && |ph| == |Tokens|
    ensures Flatten(ps, ph) == LitRun(ps) + Flatten(ps[|LitRun(ps)|..], ph)
    decreases |ps|
  {
    if ps != [] && ps[0].Lit? {
      var m := |LitRun(ps)|;
      FlattenSplitRun(ps[1..], ph);
      assert LitRun(ps) == [ps[0].c] + LitRun(ps[1..]);
      assert ps[1..][m - 1..] == ps[m..];
    }
  }

  /** The first character of a rendered piece tells which alphabet it comes from. */
  lemma RenderHead(p: Piece, ph: seq<string>)
    requires PieceOk(p) && ValidPlaceholders(ph)
    ensures |Render(p, ph)| >= 1
    ensures p.Ph? ==> IsPlaceholderChar(Render(p, ph)[0])
    ensures p.Tk? ==> !IsPlaceholderChar(Render(p, ph)[0])
  {
    if p.Ph? {
      PlaceholderChars(ph[p.k]);
    }
  }

  lemma FlattenCons(ps: seq<Piece>, ph: seq<string>)
    requires WF(ps) && |ph| == |Tokens| && ps != []
    ensures Flatten(ps, ph) == Render(ps[0], ph) + Flatten(ps[1..], ph)
  {
  }

  // ---------------------------------------------------------------------------
  // Encoding in the piece view

  predicate LitsSpell(ps: seq<Piece>, t: string)
  {
    |t| <= |ps| && forall j :: 0 <= j < |t| ==> ps[j] == Lit(t[j])
  }

  /** Literal pieces spelling `t` at the front split off as `Lits(t)`. */
  lemma SpellSplit(ps: seq<Piece>, t: string)
    requires LitsSpell(ps, t)
    ensures ps == Lits(t) + ps[|t|..]
  {
    assert ps[..|t|] == Lits(t);
    assert ps == ps[..|t|] + ps[|t|..];
  }

  /** One `str_replace` pair: runs of literals spelling `Tokens[i]` become `Ph(i)`, left to right. */
  function EncStep(ps: seq<Piece>, i: nat): (r: seq<Piece>)
    requires i < |Tokens|
    ensures WF(ps) ==> WF(r)
    ensures NoTk(ps) ==> NoTk(r)
    decreases |ps|
  {
    if ps == [] then []
    else if LitsSpell(ps, Tokens[i]) then [Ph(i)] + EncStep(ps[|Tokens[i]|..], i)
    else [ps[0]] + EncStep(ps[1..], i)
  }

  function EncSteps(ps: seq<Piece>, i: nat): (r: seq<Piece>)
    requires i <= |Tokens|
    ensures WF(ps) ==> WF(r)
    ensures NoTk(ps) ==> NoTk(r)
    decreases |Tokens| - i
  {
    if i == |Tokens| then ps else EncSteps(EncStep(ps, i), i + 1)
  }

  /**
   * A text without `_` can only be read off the flattened text where
   * literal pieces spell it: every placeholder starts with `_`.
   */
  lemma {:induction false} SpellFromFlatten(ps: seq<Piece>, t: string, ph: seq<string>)
    requires WF(ps) && NoTk(ps) && ValidPlaceholders(ph)
    requires Lacks(t, '_')
    requires StartsWith(Flatten(ps, ph), t)
    ensures LitsSpell(ps, t)
    decreases |t|
  {
    if t != [] {
      assert ps != [];
      FlattenCons(ps, ph);
      RenderHead(ps[0], ph);
      if ps[0].Ph? {
        PlaceholderChars(ph[ps[0].k]);
      }
      assert Flatten(ps, ph)[0] == Render(ps[0], ph)[0];
      assert ps[0].Lit?;
      assert Flatten(ps, ph)[1..] == Flatten(ps[1..], ph);
      assert StartsWith(Flatten(ps[1..], ph), t[1..]);
      SpellFromFlatten(ps[1..], t[1..], ph);
    }
  }

  /** A front run spelling the token becomes one placeholder, and the scan resumes after it. */
  lemma EncStepFlattenSpell(ps: seq<Piece>, i: nat, ph: seq<string>)
    requires WF(ps) && NoTk(ps) && ValidPlaceholders(ph) && i < |Tokens|
    requires LitsSpell(ps, Tokens[i])
    requires ReplaceAll(Flatten(ps[|Tokens[i]|..], ph), Tokens[i], ph[i])
             == Flatten(EncStep(ps[|Tokens[i]|..], i), ph)
    ensures ReplaceAll(Flatten(ps, ph), Tokens[i], ph[i]) == Flatten(EncStep(ps, i), ph)
  {
    SpellFlatten(ps, i, ph);
    SpellEncStep(ps, i, ph);
  }

  /** A front spelling of `Tokens[i]` flattens to the token itself, which `str_replace` swaps for `ph[i]`. */
  lemma SpellFlatten(ps: seq<Piece>, i: nat, ph: seq<string>)
    requires WF(ps) && NoTk(ps) && ValidPlaceholders(ph) && i < |Tokens|
    requires LitsSpell(ps, Tokens[i])
    ensures ReplaceAll(Flatten(ps, ph), Tokens[i], ph[i])
            == ph[i] + ReplaceAll(Flatten(ps[|Tokens[i]|..], ph), Tokens[i], ph[i])
  {
    var t := Tokens[i];
    TokenChars(i);
    var rest := ps[|t|..];
    SpellSplit(ps, t);
    FlattenAppend(Lits(t), rest, ph);
    FlattenLits(t, ph);
    ReplaceAllFront(t, Flatten(rest, ph), t, ph[i]);
  }

  /** A front spelling of `Tokens[i]` becomes one `Ph(i)` piece, which renders as `ph[i]`. */
  lemma SpellEncStep(ps: seq<Piece>, i: nat, ph: seq<string>)
    requires WF(ps) && NoTk(ps) && ValidPlaceholders(ph) && i < |Tokens|
    requires LitsSpell(ps, Tokens[i])
    ensures Flatten(EncStep(ps, i), ph) == ph[i] + Flatten(EncStep(ps[|Tokens[i]|..], i), ph)
  {
    TokenChars(i);
    FlattenCons(EncStep(ps, i), ph);
    assert EncStep(ps, i)[1..] == EncStep(ps[|Tokens[i]|..], i);
  }

  /** A front piece that starts no token occurrence is copied. */
  lemma EncStepFlattenCopy(ps: seq<Piece>, i: nat, ph: seq<string>)
    requires WF(ps) && NoTk(ps) && ValidPlaceholders(ph) && i < |Tokens|
    requires ps != [] && !LitsSpell(ps, Tokens[i])
    requires ReplaceAll(Flatten(ps[1..], ph), Tokens[i], ph[i]) == Flatten(EncStep(ps[1..], i), ph)
    ensures ReplaceAll(Flatten(ps, ph), Tokens[i], ph[i]) == Flatten(EncStep(ps, i), ph)
  {
    var t := Tokens[i];
    TokenChars(i);
    FlattenCons(ps, ph);
    match ps[0]
    case Ph(k) =>
      PlaceholderChars(ph[k]);
      ReplaceAllSkipLacking(ph[k], Flatten(ps[1..], ph), t, ph[i]);
    case Lit(c) =>
      if StartsWith(Flatten(ps, ph), t) {
        SpellFromFlatten(ps, t, ph);
      }
      ReplaceAllSkip([c], Flatten(ps[1..], ph), t, ph[i]);
    FlattenCons(EncStep(ps, i), ph);
    assert EncStep(ps, i)[1..] == EncStep(ps[1..], i);
  }

  lemma {:induction false} EncStepFlatten(ps: seq<Piece>, i: nat, ph: seq<string>)
    requires WF(ps) && NoTk(ps) && ValidPlaceholders(ph) && i < |Tokens|
    ensures ReplaceAll(Flatten(ps, ph), Tokens[i], ph[i]) == Flatten(EncStep(ps, i), ph)
    decreases |ps|
  {
    if ps == [] {
    } else if LitsSpell(ps, Tokens[i]) {
      EncStepFlatten(ps[|Tokens[i]|..], i, ph);
      EncStepFlattenSpell(ps, i, ph);
    } else {
      EncStepFlatten(ps[1..], i, ph);
      EncStepFlattenCopy(ps, i, ph);
    }
  }

  lemma {:induction false} EncStepsFlatten(ps: seq<Piece>, i: nat, ph: seq<string>)
    requires WF(ps) && NoTk(ps) && ValidPlaceholders(ph) && i <= |Tokens|
    ensures ReplaceEach(Flatten(ps, ph), Tokens[i..], ph[i..]) == Flatten(EncSteps(ps, i), ph)
    decreases |Tokens| - i
  {
    if i < |Tokens| {
      EncStepFlatten(ps, i, ph);
      assert Tokens[i..][1..] == Tokens[i + 1..];
      assert ph[i..][1..] == ph[i + 1..];
      EncStepsFlatten(EncStep(ps, i), i + 1, ph);
    }
  }

  // ---------------------------------------------------------------------------
  // No placeholder hides in the literal text

  /** Some placeholder is spelled by the literal run at the front. */
  predicate StartsPh(ps: seq<Piece>, ph: seq<string>)
  {
    ps != [] && ps[0].Lit? && exists k :: 0 <= k < |ph| && StartsWith(LitRun(ps), ph[k])
  }

  /** No literal run, from any of its positions, spells a placeholder. */
  predicate Good(ps: seq<Piece>, ph: seq<string>)
    decreases |ps|
  {
    ps == [] || (!StartsPh(ps, ph) && Good(ps[1..], ph))
  }

  lemma {:induction false} GoodSuffix(ps: seq<Piece>, n: nat, ph: seq<string>)
    requires Good(ps, ph) && n <= |ps|
    ensures Good(ps[n..], ph)
    decreases n
  {
    if n > 0 {
      GoodSuffix(ps[1..], n - 1, ph);
      assert ps[1..][n - 1..] == ps[n..];
    }
  }

  lemma {:induction false} GoodLits(s: string, ph: seq<string>)
    requires FreeOfPlaceholders(s, ph)
    ensures Good(Lits(s), ph)
    decreases |s|
  {
    if s != [] {
      assert LitRun(Lits(s)) == s by {
        var r := LitRun(Lits(s));
        assert |r| == |s|;
      }
      forall k | 0 <= k < |ph| ensures !StartsWith(s, ph[k]) {
        assert s[0..] == s;
      }
      forall k | 0 <= k < |ph| ensures Absent(ph[k], s[1..]) {
        forall i | 0 <= i <= |s[1..]| ensures !StartsWith(s[1..][i..], ph[k]) {
          assert s[1..][i..] == s[i + 1..];
        }
      }
      assert Lits(s)[1..] == Lits(s[1..]);
      GoodLits(s[1..], ph);
    }
  }

  /** Encoding never lengthens the literal run at the front. */
  lemma {:induction false} LitRunEncStep(ps: seq<Piece>, i: nat)
    requires i < |Tokens|
    ensures StartsWith(LitRun(ps), LitRun(EncStep(ps, i)))
    decreases |ps|
  {
    if ps != [] && !LitsSpell(ps, Tokens[i]) && ps[0].Lit? {
      var r := EncStep(ps, i);
      assert r[1..] == EncStep(ps[1..], i);
      LitRunEncStep(ps[1..], i);
      assert LitRun(r) == [ps[0].c] + LitRun(EncStep(ps[1..], i));
      assert LitRun(ps) == [ps[0].c] + LitRun(ps[1..]);
    }
  }

  lemma {:induction false} GoodEncStep(ps: seq<Piece>, i: nat, ph: seq<string>)
    requires Good(ps, ph) && i < |Tokens|
    ensures Good(EncStep(ps, i), ph)
    decreases |ps|
  {
    var r := EncStep(ps, i);
    if ps == [] {
    } else if LitsSpell(ps, Tokens[i]) {
      GoodSuffix(ps, |Tokens[i]|, ph);
      GoodEncStep(ps[|Tokens[i]|..], i, ph);
      assert r[1..] == EncStep(ps[|Tokens[i]|..], i);
    } else {
      var rest := EncStep(ps[1..], i);
      GoodEncStep(ps[1..], i, ph);
      assert r[1..] == rest;
      if ps[0].Lit? {
        LitRunEncStep(ps[1..], i);
        assert LitRun(r) == [ps[0].c] + LitRun(rest);
        assert LitRun(ps) == [ps[0].c] + LitRun(ps[1..]);
        assert StartsWith(LitRun(ps), LitRun(r));
        forall k | 0 <= k < |ph| ensures !StartsWith(LitRun(r), ph[k]) {
          if StartsWith(LitRun(r), ph[k]) {
            StartsWithTrans(LitRun(ps), LitRun(r), ph[k]);
          }
        }
      }
    }
  }

  lemma {:induction false} GoodEncSteps(ps: seq<Piece>, i: nat, ph: seq<string>)
    requires Good(ps, ph) && i <= |Tokens|
    ensures Good(EncSteps(ps, i), ph)
    decreases |Tokens| - i
  {
    if i < |Tokens| {
      GoodEncStep(ps, i, ph);
      GoodEncSteps(EncStep(ps, i), i + 1, ph);
    }
  }

  // ---------------------------------------------------------------------------
  // Decoding in the piece view

  function ExpandPiece(p: Piece, j: nat): Piece
  {
    if p == Ph(j) then Tk(j) else p
  }

  /** One decoding pair: every `Ph(j)` becomes `Tk(j)`. */
  function Expand(ps: seq<Piece>, j: nat): (r: seq<Piece>)
    ensures WF(ps) ==> WF(r)
    ensures |r| == |ps|
    ensures forall n :: 0 <= n < |ps| ==> r[n] == ExpandPiece(ps[n], j)
  {
    seq(|ps|, n requires 0 <= n < |ps| => ExpandPiece(ps[n], j))
  }

  function ExpandFrom(ps: seq<Piece>, j: nat): (r: seq<Piece>)
    requires j <= |Tokens|
    ensures WF(ps) ==> WF(r)
    decreases |Tokens| - j
  {
    if j == |Tokens| then ps else ExpandFrom(Expand(ps, j), j + 1)
  }

  /** Every placeholder piece shown as the token it stands for. */
  function Reveal(ps: seq<Piece>): (r: seq<Piece>)
    ensures WF(ps) ==> WF(r)
    ensures |r| == |ps|
  {
    seq(|ps|, n requires 0 <= n < |ps| => if ps[n].Ph? then Tk(ps[n].k) else ps[n])
  }

  lemma {:induction false} LitRunExpand(ps: seq<Piece>, j: nat)
    ensures LitRun(Expand(ps, j)) == LitRun(ps)
    decreases |ps|
  {
    if ps != [] && ps[0].Lit? {
      assert Expand(ps, j)[1..] == Expand(ps[1..], j);
      LitRunExpand(ps[1..], j);
    }
  }

  lemma {:induction false} GoodExpand(ps: seq<Piece>, j: nat, ph: seq<string>)
    requires Good(ps, ph)
    ensures Good(Expand(ps, j), ph)
    decreases |ps|
  {
    if ps != [] {
      LitRunExpand(ps, j);
      assert Expand(ps, j)[1..] == Expand(ps[1..], j);
      GoodExpand(ps[1..], j, ph);
    }
  }

  /** At a literal piece no placeholder starts, because the literal run does not spell one. */
  lemma NotPlaceholderAtLit(ps: seq<Piece>, j: nat, ph: seq<string>)
    requires WF(ps) && ValidPlaceholders(ph) && j < |ph|
    requires ps != [] && ps[0].Lit? && !StartsPh(ps, ph)
    ensures !StartsWith(Flatten(ps, ph), ph[j])
  {
    var run := LitRun(ps);
    var m := |run|;
    var tail := Flatten(ps[m..], ph);
    FlattenSplitRun(ps, ph);
    var f := Flatten(ps, ph);
    assert f == run + tail;
    if m >= 46 {
      assert f[..46] == run[..46];
    } else if m < |ps| {
      FlattenCons(ps[m..], ph);
      assert ps[m..][0] == ps[m];
      assert ps[m..][1..] == ps[m + 1..];
      RenderHead(ps[m], ph);
      if |f| >= 46 {
        match ps[m]
        case Ph(k) =>
          assert f[m..46] == ph[k][..46 - m];
          NoOverlap(ph[j], ph[k], m);
          assert f[..46][m..] == f[m..46];
          assert ph[j][m..] != f[..46][m..];
        case Tk(k) =>
          PlaceholderChars(ph[j]);
          assert f[m] == tail[0];
          assert !IsPlaceholderChar(f[..46][m]);
      }
    } else {
      assert |f| == m;
    }
  }

  lemma {:induction false} DecStepFlatten(ps: seq<Piece>, j: nat, ph: seq<string>)
    requires WF(ps) && Good(ps, ph) && ValidPlaceholders(ph) && j < |Tokens|
    ensures WF(Expand(ps, j))
    ensures ReplaceAll(Flatten(ps, ph), ph[j], Tokens[j]) == Flatten(Expand(ps, j), ph)
    decreases |ps|
  {
    var e := Expand(ps, j);
    if ps != [] {
      assert e[1..] == Expand(ps[1..], j);
      FlattenCons(ps, ph);
      FlattenCons(e, ph);
      DecStepFlatten(ps[1..], j, ph);
      var rest := Flatten(ps[1..], ph);
      PlaceholderChars(ph[j]);
      match ps[0]
      case Ph(k) =>
        if k == j {
          ReplaceAllFront(ph[j], rest, ph[j], Tokens[j]);
        } else {
          OtherPlaceholderSkipped(ph[k], ph[j], rest);
          ReplaceAllSkip(ph[k], rest, ph[j], Tokens[j]);
        }
      case Tk(k) =>
        TokenChars(k);
        ReplaceAllSkipLacking(Tokens[k], rest, ph[j], Tokens[j]);
      case Lit(c) =>
        NotPlaceholderAtLit(ps, j, ph);
        ReplaceAllSkip([c], rest, ph[j], Tokens[j]);
    }
  }

  /** No occurrence of a placeholder starts inside a different placeholder. */
  lemma OtherPlaceholderSkipped(p: string, q: string, rest: string)
    requires PlaceholderShape(p) && PlaceholderShape(q) && p != q
    ensures forall n :: 0 <= n < |p| ==> !StartsWith((p + rest)[n..], q)
  {
    forall n | 0 <= n < |p|
      ensures !StartsWith((p + rest)[n..], q)
    {
      if n == 0 {
        assert (p + rest)[0..][..46] == p;
      } else {
        NoOverlap(p, q, n);
        var w := (p + rest)[n..];
        if |w| >= 46 {
          assert w[..46][..46 - n] == p[n..];
          assert q[..46 - n] != p[n..];
        }
      }
    }
  }

  lemma {:induction false} DecStepsFlatten(ps: seq<Piece>, j: nat, ph: seq<string>)
    requires WF(ps) && Good(ps, ph) && ValidPlaceholders(ph) && j <= |Tokens|
    ensures ReplaceEach(Flatten(ps, ph), ph[j..], Tokens[j..]) == Flatten(ExpandFrom(ps, j), ph)
    decreases |Tokens| - j
  {
    if j < |Tokens| {
      DecStepFlatten(ps, j, ph);
      GoodExpand(ps, j, ph);
      assert Tokens[j..][1..] == Tokens[j + 1..];
      assert ph[j..][1..] == ph[j + 1..];
      DecStepsFlatten(Expand(ps, j), j + 1, ph);
    }
  }

  /** Decoding every index in order reveals every placeholder. */
  lemma {:induction false} ExpandFromReveals(ps: seq<Piece>, j: nat)
    requires WF(ps) && j <= |Tokens|
    requires forall n :: 0 <= n < |ps| && ps[n].Ph? ==> ps[n].k >= j
    ensures ExpandFrom(ps, j) == Reveal(ps)
    decreases |Tokens| - j
  {
    if j < |Tokens| {
      ExpandFromReveals(Expand(ps, j), j + 1);
      assert Reveal(Expand(ps, j)) == Reveal(ps);
    } else {
      assert Reveal(ps) == ps;
    }
  }

  lemma RevealAppend(xs: seq<Piece>, ys: seq<Piece>)
    ensures Reveal(xs + ys) == Reveal(xs) + Reveal(ys)
  {
  }

  /** Revealing a token piece in front of `e` matches revealing the literals that spelled it. */
  lemma RevealSpelled(ps: seq<Piece>, t: string, k: nat, e: seq<Piece>, ph: seq<string>)
    requires WF(ps) && WF(e) && k < |Tokens| && |ph| == |Tokens| && Tokens[k] == t && LitsSpell(ps, t)
    requires Flatten(Reveal(e), ph) == Flatten(Reveal(ps[|t|..]), ph)
    ensures WF([Ph(k)] + e)
    ensures Flatten(Reveal([Ph(k)] + e), ph) == Flatten(Reveal(ps), ph)
  {
    var rest := ps[|t|..];
    RevealAppend([Ph(k)], e);
    assert Reveal([Ph(k)]) == [Tk(k)];
    FlattenCons([Tk(k)] + Reveal(e), ph);
    assert ([Tk(k)] + Reveal(e))[1..] == Reveal(e);
    SpellSplit(ps, t);
    RevealAppend(Lits(t), rest);
    assert Reveal(Lits(t)) == Lits(t);
    FlattenAppend(Lits(t), Reveal(rest), ph);
    FlattenLits(t, ph);
  }

  /** Revealing a copied front piece commutes with flattening. */
  lemma RevealCopied(ps: seq<Piece>, e: seq<Piece>, ph: seq<string>)
    requires WF(ps) && WF(e) && |ph| == |Tokens| && ps != []
    requires Flatten(Reveal(e), ph) == Flatten(Reveal(ps[1..]), ph)
    ensures WF([ps[0]] + e)
    ensures Flatten(Reveal([ps[0]] + e), ph) == Flatten(Reveal(ps), ph)
  {
    RevealAppend([ps[0]], e);
    assert ps == [ps[0]] + ps[1..];
    RevealAppend([ps[0]], ps[1..]);
    var h := Reveal([ps[0]]);
    FlattenAppend(h, Reveal(e), ph);
    FlattenAppend(h, Reveal(ps[1..]), ph);
  }

  /** Encoding one token and then revealing every placeholder changes nothing in the flattened text. */
  lemma {:induction false} RevealEncStep(ps: seq<Piece>, i: nat, ph: seq<string>)
    requires WF(ps) && i < |Tokens| && |ph| == |Tokens|
    ensures Flatten(Reveal(EncStep(ps, i)), ph) == Flatten(Reveal(ps), ph)
    decreases |ps|
  {
    if ps == [] {
    } else if LitsSpell(ps, Tokens[i]) {
      RevealEncStep(ps[|Tokens[i]|..], i, ph);
      RevealSpelled(ps, Tokens[i], i, EncStep(ps[|Tokens[i]|..], i), ph);
    } else {
      RevealEncStep(ps[1..], i, ph);
      RevealCopied(ps, EncStep(ps[1..], i), ph);
    }
  }

  lemma {:induction false} RevealEncSteps(ps: seq<Piece>, i: nat, ph: seq<string>)
    requires WF(ps) && i <= |Tokens| && |ph| == |Tokens|
    ensures Flatten(Reveal(EncSteps(ps, i)), ph) == Flatten(Reveal(ps), ph)
    decreases |Tokens| - i
  {
    if i < |Tokens| {
      RevealEncStep(ps, i, ph);
      RevealEncSteps(EncStep(ps, i), i + 1, ph);
    }
  }

  /** Encoding is the piece-level encoding of the text's literals, flattened. */
  lemma EncodeFlatten(s: string, ph: seq<string>)
    requires ValidPlaceholders(ph)
    ensures Encode(s, ph) == Flatten(EncSteps(Lits(s), 0), ph)
  {
    FlattenLits(s, ph);
    EncStepsFlatten(Lits(s), 0, ph);
    assert Tokens[0..] == Tokens && ph[0..] == ph;
  }

  /** Decoding a text with no hidden placeholder turns every placeholder piece back into its token. */
  lemma DecodeFlatten(ps: seq<Piece>, ph: seq<string>)
    requires WF(ps) && Good(ps, ph) && ValidPlaceholders(ph)
    ensures Decode(Flatten(ps, ph), ph) == Flatten(Reveal(ps), ph)
  {
    DecStepsFlatten(ps, 0, ph);
    assert Tokens[0..] == Tokens && ph[0..] == ph;
    ExpandFromReveals(ps, 0);
  }

  /**
   * Decoding the encoded text gives the original back, provided the text
   * held no placeholder string to begin with.
   */
  lemma DecodeEncode(s: string, ph: seq<string>)
    requires ValidPlaceholders(ph) && FreeOfPlaceholders(s, ph)
    ensures Decode(Encode(s, ph), ph) == s
  {
    var ps := Lits(s);
    var e := EncSteps(ps, 0);
    EncodeFlatten(s, ph);
    GoodLits(s, ph);
    GoodEncSteps(ps, 0, ph);
    DecodeFlatten(e, ph);
    RevealEncSteps(ps, 0, ph);
    assert Reveal(ps) == ps;
    FlattenLits(s, ph);
  }

  /** Literal pieces spelling `w` at the front stay in front once placeholders are revealed. */
  lemma SpelledRevealed(ps: seq<Piece>, w: string, ph: seq<string>)
    requires WF(ps) && |ph| == |Tokens| && LitsSpell(ps, w)
    ensures StartsWith(Flatten(Reveal(ps), ph), w)
  {
    var rest := ps[|w|..];
    SpellSplit(ps, w);
    RevealAppend(Lits(w), rest);
    assert Reveal(Lits(w)) == Lits(w);
    FlattenAppend(Lits(w), Reveal(rest), ph);
    FlattenLits(w, ph);
    assert (w + Flatten(Reveal(rest), ph))[..|w|] == w;
  }

  /**
   * A text that starts outside the placeholder alphabet and holds no `_`
   * occurs in the flattened pieces only where it occurs with every
   * placeholder revealed.
   */
  lemma {:induction false} AbsentFlatten(ps: seq<Piece>, w: string, ph: seq<string>)
    requires WF(ps) && NoTk(ps) && ValidPlaceholders(ph)
    requires w != [] && !IsPlaceholderChar(w[0]) && Lacks(w, '_')
    requires Absent(w, Flatten(Reveal(ps), ph))
    ensures Absent(w, Flatten(ps, ph))
    decreases |ps|
  {
    if ps != [] {
      var f := Flatten(ps, ph);
      var head := Render(ps[0], ph);
      FlattenCons(ps, ph);
      FlattenCons(Reveal(ps), ph);
      assert Reveal(ps)[1..] == Reveal(ps[1..]);
      AbsentParts(w, Render(Reveal(ps)[0], ph), Flatten(Reveal(ps[1..]), ph));
      AbsentFlatten(ps[1..], w, ph);
      RenderHead(ps[0], ph);
      assert Flatten(Reveal(ps), ph)[0..] == Flatten(Reveal(ps), ph);
      forall i | 0 <= i <= |f|
        ensures !StartsWith(f[i..], w)
      {
        if i >= |head| {
          assert f[i..] == Flatten(ps[1..], ph)[i - |head|..];
        } else if ps[0].Ph? {
          PlaceholderChars(head);
          assert f[i..][0] == head[i];
        } else {
          assert f[i..] == f;
          if StartsWith(f, w) {
            SpellFromFlatten(ps, w, ph);
            SpelledRevealed(ps, w, ph);
          }
        }
      }
    }
  }

  /**
   * Encoding brings in no occurrence of a text that starts outside the
   * placeholder alphabet and holds no `_`: such a text can only be spelled
   * by characters the input already had, in the same order.
   */
  lemma EncodeKeepsAbsent(s: string, w: string, ph: seq<string>)
    requires ValidPlaceholders(ph)
    requires w != [] && !IsPlaceholderChar(w[0]) && Lacks(w, '_')
    requires Absent(w, s)
    ensures Absent(w, Encode(s, ph))
  {
    var ps := Lits(s);
    EncodeFlatten(s, ph);
    RevealEncSteps(ps, 0, ph);
    assert Reveal(ps) == ps;
    FlattenLits(s, ph);
    AbsentFlatten(EncSteps(ps, 0), w, ph);
  }

  /**
   * Encoding keeps a text that is not whitespace-only from becoming one: a
   * whitespace-only result holds no placeholder, so it decodes to itself,
   * and it decodes to the input.
   */
  lemma EncodeKeepsNonBlank(s: string, ph: seq<string>)
    requires ValidPlaceholders(ph) && FreeOfPlaceholders(s, ph)
    ensures TrimsToEmpty(Encode(s, ph)) ==> TrimsToEmpty(s)
  {
    var e := Encode(s, ph);
    if TrimsToEmpty(e) {
      forall k | 0 <= k < |ph|
        ensures Absent(ph[k], e)
      {
        PlaceholderChars(ph[k]);
        LacksAbsent(e, ph[k]);
      }
      DecodeEncode(s, ph);
    }
  }

  // ---------------------------------------------------------------------------
  // No doubled brace survives encoding

  predicate NoDoubledLit(ps: seq<Piece>, c: char)
  {
    forall n :: 0 <= n < |ps| - 1 ==> !(ps[n] == Lit(c) && ps[n + 1] == Lit(c))
  }

  lemma EncStepHead(ps: seq<Piece>, i: nat)
    requires i < |Tokens| && ps != []
    ensures EncStep(ps, i) != []
    ensures EncStep(ps, i)[0] == if LitsSpell(ps, Tokens[i]) then Ph(i) else ps[0]
  {
  }

  /** Encoding never makes two literal pieces adjacent that were not adjacent before. */
  lemma {:induction false} EncStepKeepsNoDoubled(ps: seq<Piece>, i: nat, c: char)
    requires i < |Tokens| && NoDoubledLit(ps, c)
    ensures NoDoubledLit(EncStep(ps, i), c)
    decreases |ps|
  {
    if ps != [] {
      var r := EncStep(ps, i);
      var skip := if LitsSpell(ps, Tokens[i]) then |Tokens[i]| else 1;
      var rest := ps[skip..];
      assert NoDoubledLit(rest, c) by {
        forall n | 0 <= n < |rest| - 1 ensures !(rest[n] == Lit(c) && rest[n + 1] == Lit(c)) {
          assert rest[n] == ps[n + skip] && rest[n + 1] == ps[n + 1 + skip];
        }
      }
      EncStepKeepsNoDoubled(rest, i, c);
      assert r[1..] == EncStep(rest, i);
      if skip == 1 && ps[0] == Lit(c) && |ps| > 1 {
        EncStepHead(rest, i);
        assert rest[0] == ps[1];
      }
    }
  }

  /** A two-character token `cc` leaves no two adjacent literal `c` pieces behind. */
  lemma {:induction false} EncStepRemovesDoubled(ps: seq<Piece>, i: nat, c: char)
    requires i < |Tokens| && Tokens[i] == [c, c]
    ensures NoDoubledLit(EncStep(ps, i), c)
    decreases |ps|
  {
    if ps != [] {
      var r := EncStep(ps, i);
      var skip := if LitsSpell(ps, Tokens[i]) then 2 else 1;
      var rest := ps[skip..];
      EncStepRemovesDoubled(rest, i, c);
      assert r[1..] == EncStep(rest, i);
      if skip == 1 && ps[0] == Lit(c) && |ps| > 1 {
        EncStepHead(rest, i);
        assert rest[0] == ps[1];
        assert ps[1] != Lit(c);
        assert !LitsSpell(rest, Tokens[i]);
      }
    }
  }

  lemma {:induction false} EncStepsNoDoubled(ps: seq<Piece>, i: nat, d: nat, c: char)
    requires i <= d < |Tokens| && Tokens[d] == [c, c]
    ensures NoDoubledLit(EncSteps(ps, i), c)
    decreases |Tokens| - i
  {
    if i < d {
      EncStepsNoDoubled(EncStep(ps, i), i + 1, d, c);
    } else {
      EncStepRemovesDoubled(ps, i, c);
      EncStepsKeepNoDoubled(EncStep(ps, i), i + 1, c);
    }
  }

  lemma {:induction false} EncStepsKeepNoDoubled(ps: seq<Piece>, i: nat, c: char)
    requires i <= |Tokens| && NoDoubledLit(ps, c)
    ensures NoDoubledLit(EncSteps(ps, i), c)
    decreases |Tokens| - i
  {
    if i < |Tokens| {
      EncStepKeepsNoDoubled(ps, i, c);
      EncStepsKeepNoDoubled(EncStep(ps, i), i + 1, c);
    }
  }

  lemma {:induction false} FlattenNoDoubled(ps: seq<Piece>, ph: seq<string>, c: char)
    requires WF(ps) && NoTk(ps) && ValidPlaceholders(ph) && !IsPlaceholderChar(c)
    requires NoDoubledLit(ps, c)
    ensures Absent([c, c], Flatten(ps, ph))
    decreases |ps|
  {
    var f := Flatten(ps, ph);
    if ps != [] {
      FlattenCons(ps, ph);
      var head := Render(ps[0], ph);
      var rest := Flatten(ps[1..], ph);
      assert NoDoubledLit(ps[1..], c) by {
        forall n | 0 <= n < |ps[1..]| - 1 ensures !(ps[1..][n] == Lit(c) && ps[1..][n + 1] == Lit(c)) {
          assert ps[1..][n] == ps[n + 1];
        }
      }
      FlattenNoDoubled(ps[1..], ph, c);
      if ps[0].Ph? {
        PlaceholderChars(ph[ps[0].k]);
      }
      forall n | 0 <= n < |f| - 1 ensures f[n] != c || f[n + 1] != c {
        if n + 1 < |head| {
          assert ps[0].Ph? && f[n] == head[n];
        } else if n >= |head| {
          assert f[n..n + 2] == rest[n - |head|..][..2];
        } else if ps[0] == Lit(c) {
          FlattenCons(ps[1..], ph);
          RenderHead(ps[1], ph);
          assert f[n + 1] == Render(ps[1], ph)[0];
        } else {
          assert f[n] == head[n];
        }
      }
      forall n | 0 <= n <= |f| ensures !StartsWith(f[n..], [c, c]) {
        if n + 1 < |f| {
          assert f[n..][0] == f[n] && f[n..][1] == f[n + 1];
        }
      }
    }
  }

  /** After the ordered replacement, neither `{{` nor `}}` is left in the text. */
  lemma EncodingLeavesNoDoubleBrace(s: string, ph: seq<string>)
    requires ValidPlaceholders(ph)
    ensures Absent("{{", ReplaceEach(s, Tokens, ph)) && Absent("}}", ReplaceEach(s, Tokens, ph))
  {
    var ps := Lits(s);
    FlattenLits(s, ph);
    EncStepsFlatten(ps, 0, ph);
    assert Tokens[0..] == Tokens && ph[0..] == ph;
    EncStepsNoDoubled(ps, 0, 5, '{');
    EncStepsNoDoubled(ps, 0, 6, '}');
    FlattenNoDoubled(EncSteps(ps, 0), ph, '{');
    FlattenNoDoubled(EncSteps(ps, 0), ph, '}');
  }
}
