/** The canned-phrase reply generator of the chat page. A prompt is
    normalised into a "catalyst", cut into at most six fragments, and one
    fragment is set into one of three carrier sentences followed by one of
    five seed phrases. The page picks the sentence and the phrase with
    `Math.random()`; here the picks are the parameters `seedPick` and
    `hybridPick`. */
module Synthesizer {
  import opened Text

  const Seeds: seq<string> := [
    "Proyectemos un relato donde tus palabras generen ecos cromáticos que envolvieron a la audiencia.",
    "Diseñemos patrones sonoros que caen como meteoros suaves sobre la percepción colectiva.",
    "Imagina cápsulas de aroma inteligente sincronizadas con micromovimientos de luz.",
    "Podemos cultivar avatares líquidos que se fragmentan en partículas de ideas cuando los tocas.",
    "Activemos un pergamino de datos que se pliega siguiendo la emoción dominante en la sala."
  ]

  /** The three carrier sentences, each split around the slot a fragment
      fills, and the word that fills the slot when there is no fragment. */
  const Openings: seq<string> := ["Entretejamos ", "Amplifiquemos ", "Sincronizaremos "]
  const Closings: seq<string> := [
    " con partículas lumínicas que respondan a tus gestos.",
    " con ondas sónicas que abracen las paredes del espacio.",
    " con nubes cinéticas que respiran contigo."
  ]
  const Fallbacks: seq<string> := ["ideas", "impulsos", "emociones"]

  /** How many seed phrases and carrier sentences there are to pick from. */
  const SeedCount: nat := 5
  const HybridCount: nat := 3

  const CatalystLimit: nat := 140
  const MaxFragments: nat := 6
  /** Tokens longer than this are abbreviated. */
  const ShortToken: nat := 6
  const Dot: char := '·'

  /** trim, collapse whitespace runs, keep 140 characters, lower-case. The
      catalyst is never longer than the prompt nor than 140 characters. */
  function Catalyst(prompt: string): (r: string)
    ensures |r| <= |prompt| && |r| <= CatalystLimit
  {
    LowerCase(Prefix(Collapse(Trim(prompt)), CatalystLimit))
  }

  /** The catalyst's only whitespace: single spaces, never two in a row. */
  predicate SingleSpaced(c: string) {
    && (forall i :: 0 <= i < |c| && IsSpace(c[i]) ==> c[i] == ' ')
    && (forall i :: 0 <= i < |c| - 1 && c[i] == ' ' ==> c[i + 1] != ' ')
  }

  /** The catalyst is at most 140 characters, empty exactly for a blank
      prompt, never starts with whitespace, and its only whitespace is
      single spaces. It may end with a space, when the 140-character cut
      lands just after one. */
  lemma CatalystShape(prompt: string)
    ensures |Catalyst(prompt)| <= CatalystLimit
    ensures Catalyst(prompt) == [] <==> IsBlank(prompt)
    ensures Catalyst(prompt) == [] || !IsSpace(Catalyst(prompt)[0])
    ensures SingleSpaced(Catalyst(prompt))
  {
    var x := Collapse(Trim(prompt));
    var p := Prefix(x, CatalystLimit);
    var c := LowerCase(p);
    TrimShape(prompt);
    CollapseShape(Trim(prompt));
    forall i | 0 <= i < |c|
      ensures c[i] == Lower(p[i]) && p[i] == x[i]
      ensures IsSpace(c[i]) <==> IsSpace(x[i])
      ensures c[i] == ' ' <==> x[i] == ' '
    {
      LowerKeepsSpaces(p[i]);
    }
  }

  /** The catalyst keeps the prompt's visible characters, lower-cased and in
      order; the 140-character cut may drop a tail of them, and does not
      when the prompt itself fits in 140 characters. */
  lemma CatalystKeepsContent(prompt: string)
    ensures NonSpace(Catalyst(prompt)) <= LowerCase(NonSpace(prompt))
    ensures |prompt| <= CatalystLimit ==> NonSpace(Catalyst(prompt)) == LowerCase(NonSpace(prompt))
  {
    var t := Trim(prompt);
    var x := Collapse(t);
    var p := Prefix(x, CatalystLimit);
    TrimKeepsContent(prompt);
    CollapseKeepsContent(t);
    PrefixKeepsContent(x, CatalystLimit);
    LowerCaseKeepsContent(p);
    LowerCasePrefix(NonSpace(p), NonSpace(prompt));
  }

  lemma LowerCasePrefix(a: string, b: string)
    requires a <= b
    ensures LowerCase(a) <= LowerCase(b)
  {
    assert LowerCase(a) == LowerCase(b)[..|a|];
  }

  /** `split(" ").filter(Boolean)`: the space-separated words, in order. */
  function Tokens(c: string): (r: seq<string>)
    ensures c != [] && c[0] != ' ' ==> r != []
  {
    NonEmpty(Split(c, ' '))
  }

  /** Every word is one of the pieces of the split: non-empty and without a
      space. */
  lemma TokensShape(c: string)
    ensures forall i :: 0 <= i < |Tokens(c)| ==> Tokens(c)[i] != [] && ' ' !in Tokens(c)[i] && Tokens(c)[i] in Split(c, ' ')
  {
    SplitPieces(c, ' ');
    NonEmptyKeeps(Split(c, ' '));
  }

  /** A space separates words: the words of `a`, a space and `b` are the
      words of `a` followed by those of `b`, every non-empty one kept in
      order. */
  lemma TokensAtSpace(a: string, b: string)
    ensures Tokens(a + [' '] + b) == Tokens(a) + Tokens(b)
  {
    SplitAtSep(a, b, ' ');
    NonEmptyAppend(Split(a, ' '), Split(b, ' '));
  }

  /** A string without a space is one word, or none when it is empty. */
  lemma TokensOfWord(w: string)
    requires ' ' !in w
    ensures Tokens(w) == if w == [] then [] else [w]
  {
    SplitNoSep(w, ' ');
    NonEmptySingle(w);
  }

  /** A catalyst's words hold no whitespace at all, and every character of
      a word is a character of the catalyst. */
  lemma TokensOfCatalyst(c: string, i: nat, j: nat)
    requires SingleSpaced(c)
    requires i < |Tokens(c)| && j < |Tokens(c)[i]|
    ensures Tokens(c)[i][j] in c
    ensures !IsSpace(Tokens(c)[i][j])
  {
    var pieces := Split(c, ' ');
    var t := Tokens(c)[i];
    TokensShape(c);
    var n :| 0 <= n < |pieces| && pieces[n] == t;
    JoinHasPieces(pieces, ' ', n, j);
    SplitJoin(c, ' ');
    assert t[j] != ' ';
  }

  /** The "glitch" applied to the token at `index`: a token of up to six
      characters is kept; a longer one becomes its first four characters, a
      middle dot, and the characters from 4 up to `6 + index % 3`. */
  function Abbreviate(token: string, index: nat): (r: string)
    ensures |token| <= ShortToken ==> r == token
  {
    if |token| > ShortToken then token[..4] + [Dot] + token[4..Min(|token|, 6 + index % 3)]
    else token
  }

  /** A token longer than six characters becomes 7 to 9 characters: its
      first four, the dot, then the token's characters from index 4 on, as
      many as the position allows. Every character of the result is the dot
      or one of the token's. */
  lemma AbbreviateShape(token: string, index: nat)
    ensures var r := Abbreviate(token, index);
      |token| > ShortToken ==>
        && |r| == 1 + Min(|token|, 6 + index % 3) && 7 <= |r| <= 9
        && r[..4] == token[..4] && r[4] == Dot && r[5..] <= token[4..]
    ensures var r := Abbreviate(token, index);
      forall k :: 0 <= k < |r| ==> r[k] == Dot || r[k] in token
  {
    var r := Abbreviate(token, index);
    if |token| > ShortToken {
      var tail := token[4..Min(|token|, 6 + index % 3)];
      assert r == token[..4] + [Dot] + tail;
      assert r[5..] == tail;
      forall k | 0 <= k < |r|
        ensures r[k] == Dot || r[k] in token
      {
        if k < 4 {
          assert r[k] == token[k];
        } else if k > 4 {
          assert r[k] == token[k - 1];
        }
      }
    }
  }

  /** The first six tokens, each abbreviated by its position. */
  function Fragments(c: string): (r: seq<string>)
    ensures |r| == Min(MaxFragments, |Tokens(c)|)
  {
    var tokens := Tokens(c);
    seq(Min(MaxFragments, |tokens|), i requires 0 <= i < Min(MaxFragments, |tokens|) => Abbreviate(tokens[i], i))
  }

  /** Fragment `i` is token `i` of the catalyst, abbreviated by its
      position: non-empty, without a space, and kept whole when short. */
  lemma FragmentsFromTokens(c: string, i: nat)
    requires i < |Fragments(c)|
    ensures Fragments(c)[i] == Abbreviate(Tokens(c)[i], i)
    ensures Fragments(c)[i] != [] && ' ' !in Fragments(c)[i]
  {
    var t := Tokens(c)[i];
    TokensShape(c);
    AbbreviateShape(t, i);
  }

  /** Every fragment of a prompt is non-empty and free of whitespace, there
      are at most six, and a prompt that is not blank yields at least one. */
  lemma FragmentsOfPrompt(prompt: string)
    ensures 1 <= |Fragments(Catalyst(prompt))| <= MaxFragments || IsBlank(prompt)
    ensures forall i, j ::
              0 <= i < |Fragments(Catalyst(prompt))| && 0 <= j < |Fragments(Catalyst(prompt))[i]|
              ==> !IsSpace(Fragments(Catalyst(prompt))[i][j])
  {
    var c := Catalyst(prompt);
    CatalystShape(prompt);
    var frags := Fragments(c);
    forall i, j | 0 <= i < |frags| && 0 <= j < |frags[i]|
      ensures !IsSpace(frags[i][j])
    {
      var t := Tokens(c)[i];
      FragmentsFromTokens(c, i);
      if frags[i][j] != Dot {
        var m :| 0 <= m < |t| && t[m] == frags[i][j];
        TokensOfCatalyst(c, i, m);
      }
    }
  }

  /** `fragments[h] ?? fallback[h]`. */
  function Filler(frags: seq<string>, h: nat): (r: string)
    requires h < HybridCount
    ensures h < |frags| ==> r == frags[h]
    ensures h >= |frags| ==> r == Fallbacks[h]
  {
    TableSizes();
    if h < |frags| then frags[h] else Fallbacks[h]
  }

  /** Carrier sentence `h` with its slot filled. It is longer than its
      opening and closing together. */
  function Hybrid(frags: seq<string>, h: nat): (r: string)
    requires h < HybridCount
    ensures |r| >= |Openings[h]| + |Closings[h]|
  {
    TableSizes();
    Openings[h] + Filler(frags, h) + Closings[h]
  }

  /** A filled carrier starts with its opening and ends with its closing,
      whatever fills the slot. */
  lemma HybridShape(frags: seq<string>, h: nat)
    requires h < HybridCount
    ensures var r := Hybrid(frags, h);
      r[..|Openings[h]|] == Openings[h] && r[|r| - |Closings[h]|..] == Closings[h]
  {
    var o, f, c := Openings[h], Filler(frags, h), Closings[h];
    assert Hybrid(frags, h) == o + (f + c);
  }

  /** The reply to `prompt`: a bare seed phrase for a blank prompt, and
      otherwise a filled carrier sentence, one space, and a seed phrase.
      Either way it is never empty. */
  function Synthesize(prompt: string, seedPick: nat, hybridPick: nat): (r: string)
    requires seedPick < SeedCount && hybridPick < HybridCount
    ensures |r| > 0
  {
    var c := Catalyst(prompt);
    var seed := Seeds[seedPick];
    TableSizes();
    if c == [] then seed
    else Hybrid(Fragments(c), hybridPick) + " " + seed
  }

  /** Whatever the prompt, the reply ends with the picked seed phrase. */
  lemma SynthesizeEndsWithSeed(prompt: string, seedPick: nat, hybridPick: nat)
    requires seedPick < SeedCount && hybridPick < HybridCount
    ensures var r := Synthesize(prompt, seedPick, hybridPick);
      |r| >= |Seeds[seedPick]| && r[|r| - |Seeds[seedPick]|..] == Seeds[seedPick]
  {
    var c := Catalyst(prompt);
    var seed := Seeds[seedPick];
    if c != [] {
      var head := Hybrid(Fragments(c), hybridPick) + " ";
      assert Synthesize(prompt, seedPick, hybridPick) == head + seed;
      assert (head + seed)[|head|..] == seed;
    }
  }

  /** A blank prompt gets a seed phrase verbatim, and no carrier sentence:
      no filled carrier followed by a seed phrase is that short. */
  lemma SynthesizeBlank(prompt: string, seedPick: nat, hybridPick: nat)
    requires seedPick < SeedCount && hybridPick < HybridCount
    requires IsBlank(prompt)
    ensures Synthesize(prompt, seedPick, hybridPick) == Seeds[seedPick]
    ensures forall frags, h, k :: 0 <= h < HybridCount && 0 <= k < SeedCount
              ==> Synthesize(prompt, seedPick, hybridPick) != Hybrid(frags, h) + " " + Seeds[k]
  {
    TableSizes();
  }

  /** A prompt that is not blank gets carrier sentence `hybridPick` with
      its fragment (or the fallback word when the prompt has too few
      words), one space and the seed phrase. The first carrier never falls
      back: every such prompt has a first fragment. */
  lemma SynthesizeNonBlank(prompt: string, seedPick: nat, hybridPick: nat)
    requires seedPick < SeedCount && hybridPick < HybridCount
    requires !IsBlank(prompt)
    ensures 1 <= |Fragments(Catalyst(prompt))|
    ensures var frags := Fragments(Catalyst(prompt));
      && Synthesize(prompt, seedPick, hybridPick)
         == Openings[hybridPick] + Filler(frags, hybridPick) + Closings[hybridPick] + " " + Seeds[seedPick]
      && (hybridPick < |frags| ==> Filler(frags, hybridPick) == frags[hybridPick])
      && Filler(frags, 0) == frags[0]
    ensures Synthesize(prompt, seedPick, hybridPick) !in Seeds
  {
    FragmentsOfPrompt(prompt);
    var r := Synthesize(prompt, seedPick, hybridPick);
    assert |r| > |Seeds[seedPick]| + |Openings[hybridPick]| + |Closings[hybridPick]|;
    TableSizes();
  }

  /** The table sizes, and the lengths that keep a bare seed phrase apart
      from a filled carrier sentence: every seed phrase is 75 to 100
      characters long and every carrier ending at least 40. */
  lemma TableSizes()
    ensures |Seeds| == SeedCount
    ensures |Openings| == |Closings| == |Fallbacks| == HybridCount
    ensures forall k :: 0 <= k < |Seeds| ==> 75 <= |Seeds[k]| <= 100
    ensures forall j :: 0 <= j < |Closings| ==> |Closings[j]| >= 40
  {
  }

  /** The reply is a bare seed phrase exactly when the prompt is blank. */
  lemma SynthesizeIsSeedIff(prompt: string, seedPick: nat, hybridPick: nat)
    requires seedPick < SeedCount && hybridPick < HybridCount
    ensures Synthesize(prompt, seedPick, hybridPick) in Seeds <==> IsBlank(prompt)
  {
    if IsBlank(prompt) {
      SynthesizeBlank(prompt, seedPick, hybridPick);
    } else {
      SynthesizeNonBlank(prompt, seedPick, hybridPick);
    }
  }
}
