/** The handful of JavaScript string operations the chat page relies on:
    `trim`, `replace(/\s+/g, " ")`, `slice(0, n)`, `toLowerCase`, `split(sep)`
    and `filter(Boolean)`, each stated over `seq<char>`. */
module Text {

  function Min(a: int, b: int): int { if a < b then a else b }

  /** The characters JavaScript's `\s` matches and `trim` removes: the
      WhiteSpace and LineTerminator code points of ECMAScript. */
  predicate IsSpace(c: char)
    ensures c == ' ' || c == '\t' || c == '\n' || c == '\r' ==> IsSpace(c)
    ensures '!' <= c <= '~' ==> !IsSpace(c)
  {
    ('\U{9}' <= c <= '\U{D}') || c == ' ' || c == '\U{A0}' || c == '\U{1680}'
    || ('\U{2000}' <= c <= '\U{200A}') || c == '\U{2028}' || c == '\U{2029}'
    || c == '\U{202F}' || c == '\U{205F}' || c == '\U{3000}' || c == '\U{FEFF}'
  }

  /** A string that `trim` reduces to "": empty or whitespace only. */
  predicate IsBlank(s: string) {
    forall i :: 0 <= i < |s| ==> IsSpace(s[i])
  }

  /** Drops the leading whitespace. */
  function TrimStart(s: string): (r: string)
    ensures |r| <= |s| && r == s[|s| - |r|..]
    ensures r == [] || !IsSpace(r[0])
  {
    if s != [] && IsSpace(s[0]) then TrimStart(s[1..]) else s
  }

  /** Everything `TrimStart` drops is whitespace. */
  lemma {:induction false} TrimStartDropsSpaces(s: string)
    ensures forall i :: 0 <= i < |s| - |TrimStart(s)| ==> IsSpace(s[i])
  {
    if s != [] && IsSpace(s[0]) {
      TrimStartDropsSpaces(s[1..]);
      forall i | 0 <= i < |s| - |TrimStart(s)|
        ensures IsSpace(s[i])
      {
        if i > 0 {
          assert s[i] == s[1..][i - 1];
        }
      }
    }
  }

  /** Drops the trailing whitespace. */
  function TrimEnd(s: string): (r: string)
    ensures |r| <= |s| && r == s[..|r|]
    ensures r == [] || !IsSpace(r[|r| - 1])
  {
    if s != [] && IsSpace(s[|s| - 1]) then TrimEnd(s[..|s| - 1]) else s
  }

  /** Everything `TrimEnd` drops is whitespace. */
  lemma {:induction false} TrimEndDropsSpaces(s: string)
    ensures forall i :: |TrimEnd(s)| <= i < |s| ==> IsSpace(s[i])
  {
    if s != [] && IsSpace(s[|s| - 1]) {
      var init := s[..|s| - 1];
      TrimEndDropsSpaces(init);
      forall i | |TrimEnd(s)| <= i < |s|
        ensures IsSpace(s[i])
      {
        if i < |s| - 1 {
          assert s[i] == init[i];
        }
      }
    }
  }

  /** JavaScript's `String.prototype.trim`. */
  function Trim(s: string): (r: string)
    ensures |r| <= |s|
  {
    TrimEnd(TrimStart(s))
  }

  /** `trim` gives "" exactly for a blank string; any other result starts
      and ends with a character that is not whitespace. */
  lemma TrimShape(s: string)
    ensures Trim(s) == [] <==> IsBlank(s)
    ensures Trim(s) != [] ==> !IsSpace(Trim(s)[0]) && !IsSpace(Trim(s)[|Trim(s)| - 1])
  {
    var t := TrimStart(s);
    var r := TrimEnd(t);
    var k := |s| - |t|;
    TrimStartDropsSpaces(s);
    TrimEndDropsSpaces(t);
    if r == [] {
      assert t == [];
    } else {
      assert r[0] == t[0] == s[k];
    }
  }

  /** Trimming twice trims nothing more. */
  lemma TrimIdempotent(s: string)
    ensures Trim(Trim(s)) == Trim(s)
  {
    var t := Trim(s);
    TrimShape(s);
    if t != [] {
      assert TrimStart(t) == t;
      assert TrimEnd(t) == t;
    }
  }

  /** `replace(/\s+/g, " ")`: every maximal run of whitespace becomes one
      space. */
  function Collapse(s: string): (r: string)
    ensures |r| <= |s|
    ensures r == [] <==> s == []
    decreases |s|
  {
    if s == [] then []
    else if IsSpace(s[0]) then [' '] + Collapse(TrimStart(s))
    else [s[0]] + Collapse(s[1..])
  }

  /** A collapsed string starts with a space exactly when the input starts
      with whitespace, and otherwise with the input's own first character. */
  lemma CollapseFirst(s: string)
    requires s != []
    ensures IsSpace(s[0]) ==> Collapse(s)[0] == ' '
    ensures !IsSpace(s[0]) ==> Collapse(s)[0] == s[0]
  {
  }

  /** After collapsing, the only whitespace is the plain space. */
  lemma {:induction false} CollapseOnlySpaces(s: string)
    ensures forall i :: 0 <= i < |Collapse(s)| && IsSpace(Collapse(s)[i]) ==> Collapse(s)[i] == ' '
    decreases |s|
  {
    if s != [] {
      var r := Collapse(s);
      var rest := if IsSpace(s[0]) then TrimStart(s) else s[1..];
      CollapseOnlySpaces(rest);
      assert r == [r[0]] + Collapse(rest);
    }
  }

  /** After collapsing, no two spaces are adjacent. */
  lemma {:induction false} CollapseNoDoubleSpace(s: string)
    ensures forall i :: 0 <= i < |Collapse(s)| - 1 && Collapse(s)[i] == ' ' ==> Collapse(s)[i + 1] != ' '
    decreases |s|
  {
    if s != [] {
      var r := Collapse(s);
      var rest := if IsSpace(s[0]) then TrimStart(s) else s[1..];
      var tail := Collapse(rest);
      CollapseNoDoubleSpace(rest);
      assert r == [r[0]] + tail;
      if IsSpace(s[0]) && rest != [] {
        CollapseFirst(rest);
      }
    }
  }

  /** After collapsing, the only whitespace is single spaces, never two of
      them in a row, and the result starts with a space exactly when the
      input starts with whitespace. */
  lemma CollapseShape(s: string)
    ensures var r := Collapse(s);
      && (s != [] ==> (IsSpace(r[0]) <==> IsSpace(s[0])))
      && (forall i :: 0 <= i < |r| && IsSpace(r[i]) ==> r[i] == ' ')
      && (forall i :: 0 <= i < |r| - 1 && r[i] == ' ' ==> r[i + 1] != ' ')
  {
    if s != [] {
      CollapseFirst(s);
    }
    CollapseOnlySpaces(s);
    CollapseNoDoubleSpace(s);
  }

  /** Dropping the leading whitespace of `a + b`: all of it comes from `a`
      unless `a` is whitespace only. */
  lemma {:induction false} TrimStartAppend(a: string, b: string)
    ensures TrimStart(a + b) == if TrimStart(a) == [] then TrimStart(b) else TrimStart(a) + b
  {
    if a == [] {
      assert a + b == b;
    } else {
      assert (a + b)[0] == a[0];
      if IsSpace(a[0]) {
        assert (a + b)[1..] == a[1..] + b;
        TrimStartAppend(a[1..], b);
      }
    }
  }

  lemma HeadTail<T>(s: seq<T>)
    requires s != []
    ensures s == [s[0]] + s[1..]
  {
  }

  lemma ConsAppend<T>(c: T, x: seq<T>, y: seq<T>)
    ensures [c] + (x + y) == ([c] + x) + y
  {
  }

  /** A string that `TrimStart` empties ends in whitespace. */
  lemma {:induction false} TrimStartEmptyLast(a: string)
    requires a != [] && TrimStart(a) == []
    ensures IsSpace(a[|a| - 1])
  {
    if |a| > 1 {
      TrimStartEmptyLast(a[1..]);
      assert a[1..][|a| - 2] == a[|a| - 1];
    }
  }

  /** Whitespace that `TrimStart` empties, put in front of a string that
      does not start with whitespace, becomes one space. */
  lemma CollapseBlankAppend(a: string, b: string)
    requires a != [] && TrimStart(a) == [] && (b == [] || !IsSpace(b[0]))
    ensures Collapse(a + b) == [' '] + Collapse(b)
    ensures Collapse(a) == [' ']
  {
    var ab := a + b;
    assert ab[0] == a[0];
    TrimStartAppend(a, b);
    assert TrimStart(ab) == TrimStart(b) == b;
  }

  /** A visible character in front is kept as it is. */
  lemma CollapseCons(c: char, s: string)
    requires !IsSpace(c)
    ensures Collapse([c] + s) == [c] + Collapse(s)
  {
    assert ([c] + s)[1..] == s;
  }

  /** One step of `CollapseAppend` when `a` starts with a visible
      character: it is kept, and the rest is collapsed on its own. */
  lemma CollapseAppendVisible(a: string, b: string)
    requires a != [] && !IsSpace(a[0])
    requires Collapse(a[1..] + b) == Collapse(a[1..]) + Collapse(b)
    ensures Collapse(a + b) == Collapse(a) + Collapse(b)
  {
    var c, rest := a[0], a[1..];
    HeadTail(a);
    ConsAppend(c, rest, b);
    CollapseCons(c, rest + b);
    CollapseCons(c, rest);
    ConsAppend(c, Collapse(rest), Collapse(b));
  }

  /** One step of `CollapseAppend` when `a` starts with whitespace that
      does not reach its end: the run becomes one space, and the rest is
      collapsed on its own. */
  lemma CollapseAppendSpace(a: string, b: string)
    requires a != [] && IsSpace(a[0]) && TrimStart(a) != []
    requires Collapse(TrimStart(a) + b) == Collapse(TrimStart(a)) + Collapse(b)
    ensures Collapse(a + b) == Collapse(a) + Collapse(b)
  {
    var ab := a + b;
    assert ab[0] == a[0];
    TrimStartAppend(a, b);
    ConsAppend(' ', Collapse(TrimStart(a)), Collapse(b));
  }

  /** Collapsing works piece by piece when the cut does not split a run of
      whitespace: each run stays one space in its own place. */
  lemma {:induction false} CollapseAppend(a: string, b: string)
    requires a == [] || b == [] || !IsSpace(a[|a| - 1]) || !IsSpace(b[0])
    ensures Collapse(a + b) == Collapse(a) + Collapse(b)
    decreases |a|
  {
    if a == [] {
      assert a + b == b;
    } else if !IsSpace(a[0]) {
      var rest := a[1..];
      assert rest == [] || rest[|rest| - 1] == a[|a| - 1];
      CollapseAppend(rest, b);
      CollapseAppendVisible(a, b);
    } else {
      var t := TrimStart(a);
      if t == [] {
        TrimStartEmptyLast(a);
        CollapseBlankAppend(a, b);
      } else {
        assert t[|t| - 1] == a[|a| - 1];
        CollapseAppend(t, b);
        CollapseAppendSpace(a, b);
      }
    }
  }

  /** A run of whitespace in front of a visible character (or of nothing)
      becomes exactly one space. */
  lemma CollapseRun(w: string, b: string)
    requires w != [] && IsBlank(w) && (b == [] || !IsSpace(b[0]))
    ensures Collapse(w + b) == [' '] + Collapse(b)
  {
    CollapseAppend(w, b);
  }

  /** `slice(0, n)`. */
  function Prefix(s: string, n: nat): (r: string)
    ensures |r| == Min(|s|, n) && r <= s
  {
    if |s| <= n then s else s[..n]
  }

  predicate IsUpper(c: char) {
    ('A' <= c <= 'Z') || ('\U{C0}' <= c <= '\U{DE}' && c != '\U{D7}')
  }

  /** `toLowerCase` on one character, for the Basic Latin and Latin-1
      letters: an upper-case letter becomes its lower-case partner, 32 code
      points on, and every other character is left alone. */
  function Lower(c: char): (r: char)
    ensures !IsUpper(r)
    ensures !IsUpper(c) ==> r == c
    ensures IsUpper(c) ==> r as int == c as int + 32
  {
    if IsUpper(c) then (c as int + 32) as char else c
  }

  /** Lower-casing turns no whitespace into a letter and no letter into
      whitespace; in particular the space stays the space. */
  lemma LowerKeepsSpaces(c: char)
    ensures IsSpace(Lower(c)) <==> IsSpace(c)
    ensures Lower(c) == ' ' <==> c == ' '
  {
  }

  /** `toLowerCase`, character by character. */
  function LowerCase(s: string): (r: string)
    ensures |r| == |s|
    ensures forall i :: 0 <= i < |s| ==> r[i] == Lower(s[i])
  {
    if s == [] then [] else [Lower(s[0])] + LowerCase(s[1..])
  }

  /** `split(sep)`: the pieces between the separators, in order; empty
      pieces included, and always at least one piece. */
  function Split(s: string, sep: char): (r: seq<string>)
    ensures |r| >= 1
    ensures s != [] && s[0] != sep ==> r[0] != []
  {
    if s == [] then [[]]
    else
      var rest := Split(s[1..], sep);
      if s[0] == sep then [[]] + rest
      else [[s[0]] + rest[0]] + rest[1..]
  }

  /** No piece of `split(sep)` contains the separator. */
  lemma {:induction false} SplitPieces(s: string, sep: char)
    ensures forall i :: 0 <= i < |Split(s, sep)| ==> sep !in Split(s, sep)[i]
  {
    if s != [] {
      var rest := Split(s[1..], sep);
      var r := Split(s, sep);
      SplitPieces(s[1..], sep);
      forall i | 0 <= i < |r|
        ensures sep !in r[i]
      {
        if s[0] == sep {
          if i > 0 {
            assert r[i] == rest[i - 1];
          }
        } else if i == 0 {
          assert r[0] == [s[0]] + rest[0];
        } else {
          assert r[i] == rest[i];
        }
      }
    }
  }

  /** `join(sep)`, the inverse of `Split`. */
  function Join(parts: seq<string>, sep: char): string {
    if parts == [] then []
    else if |parts| == 1 then parts[0]
    else parts[0] + [sep] + Join(parts[1..], sep)
  }

  /** `filter(Boolean)` on strings: keeps the non-empty ones, in order. */
  function NonEmpty(xs: seq<string>): (r: seq<string>)
    ensures |r| <= |xs|
    ensures xs != [] && xs[0] != [] ==> r != [] && r[0] == xs[0]
  {
    if xs == [] then []
    else if xs[0] == [] then NonEmpty(xs[1..])
    else [xs[0]] + NonEmpty(xs[1..])
  }

  /** `filter(Boolean)` keeps exactly the non-empty strings of its input:
      a string is in the result if and only if it is in the input and not
      empty. */
  lemma {:induction false} NonEmptyMembers(xs: seq<string>)
    ensures forall w :: w in NonEmpty(xs) <==> w in xs && w != []
  {
    if xs != [] {
      NonEmptyMembers(xs[1..]);
      HeadTail(xs);
    }
  }

  /** `filter(Boolean)` keeps only non-empty strings, each taken from the
      input, and drops nothing from an input without empty strings. */
  lemma {:induction false} NonEmptyKeeps(xs: seq<string>)
    ensures forall i :: 0 <= i < |NonEmpty(xs)| ==> NonEmpty(xs)[i] != [] && NonEmpty(xs)[i] in xs
    ensures (forall i :: 0 <= i < |xs| ==> xs[i] != []) ==> NonEmpty(xs) == xs
  {
    var r := NonEmpty(xs);
    NonEmptyMembers(xs);
    forall i | 0 <= i < |r|
      ensures r[i] != [] && r[i] in xs
    {
      assert r[i] in r;
    }
    if xs != [] && forall i :: 0 <= i < |xs| ==> xs[i] != [] {
      var tail := xs[1..];
      assert forall i :: 0 <= i < |tail| ==> tail[i] == xs[i + 1];
      NonEmptyKeeps(tail);
      HeadTail(xs);
    }
  }

  /** `filter(Boolean)` on one string keeps it exactly when it is not
      empty. */
  lemma NonEmptySingle(x: string)
    ensures NonEmpty([x]) == if x == [] then [] else [x]
  {
    assert [x][1..] == [];
  }

  /** `filter(Boolean)` distributes over concatenation: every non-empty
      piece is kept, in its order. With `NonEmptySingle` this fixes the
      result for every input. */
  lemma {:induction false} NonEmptyAppend(a: seq<string>, b: seq<string>)
    ensures NonEmpty(a + b) == NonEmpty(a) + NonEmpty(b)
  {
    if a == [] {
      assert a + b == b;
    } else {
      assert (a + b)[0] == a[0];
      assert (a + b)[1..] == a[1..] + b;
      NonEmptyAppend(a[1..], b);
    }
  }

  /** The visible characters of a string: everything but whitespace. */
  function NonSpace(s: string): (r: string)
    ensures forall i :: 0 <= i < |r| ==> !IsSpace(r[i])
  {
    if s == [] then []
    else (if IsSpace(s[0]) then [] else [s[0]]) + NonSpace(s[1..])
  }

  lemma {:induction false} NonSpaceAppend(a: string, b: string)
    ensures NonSpace(a + b) == NonSpace(a) + NonSpace(b)
  {
    if a == [] {
      assert a + b == b;
    } else {
      assert (a + b)[0] == a[0];
      assert (a + b)[1..] == a[1..] + b;
      NonSpaceAppend(a[1..], b);
    }
  }

  lemma {:induction false} NonSpaceBlank(s: string)
    requires IsBlank(s)
    ensures NonSpace(s) == []
  {
    if s != [] {
      NonSpaceBlank(s[1..]);
    }
  }

  /** Trimming removes no visible character. */
  lemma TrimKeepsContent(s: string)
    ensures NonSpace(Trim(s)) == NonSpace(s)
  {
    TrimStartKeepsContent(s);
    TrimEndKeepsContent(TrimStart(s));
  }

  lemma {:induction false} TrimStartKeepsContent(s: string)
    ensures NonSpace(TrimStart(s)) == NonSpace(s)
  {
    if s != [] && IsSpace(s[0]) {
      TrimStartKeepsContent(s[1..]);
    }
  }

  lemma {:induction false} TrimEndKeepsContent(s: string)
    ensures NonSpace(TrimEnd(s)) == NonSpace(s)
  {
    if s != [] && IsSpace(s[|s| - 1]) {
      var init := s[..|s| - 1];
      TrimEndKeepsContent(init);
      assert s == init + [s[|s| - 1]];
      NonSpaceAppend(init, [s[|s| - 1]]);
    }
  }

  /** Collapsing whitespace removes no visible character and reorders none. */
  lemma {:induction false} CollapseKeepsContent(s: string)
    ensures NonSpace(Collapse(s)) == NonSpace(s)
    decreases |s|
  {
    if s == [] {
    } else if IsSpace(s[0]) {
      var t := TrimStart(s);
      var k := |s| - |t|;
      TrimStartDropsSpaces(s);
      CollapseKeepsContent(t);
      NonSpaceAppend([' '], Collapse(t));
      assert s == s[..k] + t;
      NonSpaceAppend(s[..k], t);
      NonSpaceBlank(s[..k]);
    } else {
      CollapseKeepsContent(s[1..]);
      NonSpaceAppend([s[0]], Collapse(s[1..]));
      assert s == [s[0]] + s[1..];
      NonSpaceAppend([s[0]], s[1..]);
    }
  }

  /** Taking a prefix keeps a prefix of the visible characters. */
  lemma PrefixKeepsContent(s: string, n: nat)
    ensures NonSpace(Prefix(s, n)) <= NonSpace(s)
  {
    var p := Prefix(s, n);
    assert s == p + s[|p|..];
    NonSpaceAppend(p, s[|p|..]);
  }

  /** Lower-casing commutes with dropping whitespace. */
  lemma {:induction false} LowerCaseKeepsContent(s: string)
    ensures NonSpace(LowerCase(s)) == LowerCase(NonSpace(s))
  {
    if s != [] {
      LowerCaseKeepsContent(s[1..]);
      LowerKeepsSpaces(s[0]);
      var h := if IsSpace(s[0]) then [] else [s[0]];
      assert NonSpace(s) == h + NonSpace(s[1..]);
      LowerCaseAppend(h, NonSpace(s[1..]));
    }
  }

  lemma {:induction false} LowerCaseAppend(a: string, b: string)
    ensures LowerCase(a + b) == LowerCase(a) + LowerCase(b)
  {
    if a != [] {
      assert (a + b)[1..] == a[1..] + b;
      LowerCaseAppend(a[1..], b);
    }
  }

  lemma AppendHeadTail<T>(x: seq<T>, y: seq<T>)
    requires x != []
    ensures (x + y)[0] == x[0] && (x + y)[1..] == x[1..] + y
  {
  }

  /** Splitting at a separator splits the pieces: `split` of `a`, the
      separator and `b` is the pieces of `a` followed by those of `b`. */
  lemma {:induction false} SplitAtSep(a: string, b: string, sep: char)
    ensures Split(a + [sep] + b, sep) == Split(a, sep) + Split(b, sep)
  {
    var s := a + [sep] + b;
    if a == [] {
      assert s == [sep] + b;
      AppendHeadTail([sep], b);
    } else {
      var rest := a[1..];
      assert s == [a[0]] + (rest + [sep] + b);
      AppendHeadTail([a[0]], rest + [sep] + b);
      SplitAtSep(rest, b, sep);
      var ra, rb := Split(rest, sep), Split(b, sep);
      if a[0] == sep {
        ConsAppend([], ra, rb);
      } else {
        AppendHeadTail(ra, rb);
        ConsAppend([a[0]] + ra[0], ra[1..], rb);
      }
    }
  }

  /** A string without the separator is a single piece. */
  lemma {:induction false} SplitNoSep(s: string, sep: char)
    requires sep !in s
    ensures Split(s, sep) == [s]
  {
    if s != [] {
      SplitNoSep(s[1..], sep);
      HeadTail(s);
    }
  }

  /** `split` followed by `join` gives the input back. */
  lemma {:induction false} SplitJoin(s: string, sep: char)
    ensures Join(Split(s, sep), sep) == s
  {
    if s != [] {
      var rest := Split(s[1..], sep);
      SplitJoin(s[1..], sep);
      if s[0] == sep {
        assert Split(s, sep) == [[]] + rest;
        assert ([[]] + rest)[1..] == rest;
      } else {
        var r := Split(s, sep);
        assert r == [[s[0]] + rest[0]] + rest[1..];
        if |rest| == 1 {
          assert r == [[s[0]] + rest[0]];
        } else {
          assert r[1..] == rest[1..];
          assert Join(rest, sep) == rest[0] + [sep] + Join(rest[1..], sep);
        }
      }
    }
  }

  /** Every character of a piece is a character of the joined string. */
  lemma {:induction false} JoinHasPieces(parts: seq<string>, sep: char, i: nat, j: nat)
    requires i < |parts| && j < |parts[i]|
    ensures parts[i][j] in Join(parts, sep)
  {
    if |parts| > 1 {
      if i == 0 {
        assert Join(parts, sep)[j] == parts[0][j];
      } else {
        JoinHasPieces(parts[1..], sep, i - 1, j);
        var tail := Join(parts[1..], sep);
        assert Join(parts, sep) == parts[0] + [sep] + tail;
      }
    }
  }
}
