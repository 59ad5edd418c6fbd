/** The string primitives the retrieval engines rely on, over an ASCII
    character model: Python's `str.split()` (no argument), `lower`, `isalnum`,
    `isupper`, `startswith`, `endswith`, the substring test `p in s`, string
    ordering `<`, and `str(n)` / `int(s)` for decimal numbers. Characters
    outside ASCII are never spaces, letters or digits here, and `lower` leaves
    them unchanged.

    The linguistic resources (the WordNet lemmatizer and the English
    stop-word list) are a `Config` parameter; `Preprocess` is the shared
    pipeline "lower-case, split on whitespace, drop stop words, lemmatize". */
module Text {
  import opened Basics

  // ---------------------------------------------------------------------------
  // Characters

  /** Python's whitespace among ASCII characters: tab, line feed, vertical tab,
      form feed, carriage return, the four separators 0x1C-0x1F, and space. */
  predicate IsSpace(c: char) {
    var n := c as int;
    n == 32 || 9 <= n <= 13 || 28 <= n <= 31
  }

  predicate IsUpperChar(c: char) { 'A' <= c <= 'Z' }

  predicate IsLowerChar(c: char) { 'a' <= c <= 'z' }

  predicate IsDigitChar(c: char) { '0' <= c <= '9' }

  predicate IsAlnumChar(c: char) { IsUpperChar(c) || IsLowerChar(c) || IsDigitChar(c) }

  /** Python's `c.lower()` on one ASCII character. */
  function LowerChar(c: char): (r: char)
    ensures !IsUpperChar(r)
    ensures IsSpace(r) <==> IsSpace(c)
    ensures IsAlnumChar(r) <==> IsAlnumChar(c)
    ensures IsUpperChar(c) ==> IsLowerChar(r) && r as int == c as int + 32
    ensures !IsUpperChar(c) ==> r == c
  {
    if IsUpperChar(c) then (c as int + 32) as char else c
  }

  // ---------------------------------------------------------------------------
  // Whole strings

  /** Python's `s.lower()`. */
  function Lower(s: string): (r: string)
    ensures |r| == |s|
    ensures forall i :: 0 <= i < |s| ==> r[i] == LowerChar(s[i])
  {
    seq(|s|, i requires 0 <= i < |s| => LowerChar(s[i]))
  }

  /** No character of `s` is an upper-case letter. */
  predicate IsLowerCased(s: string) {
    forall i :: 0 <= i < |s| ==> !IsUpperChar(s[i])
  }

  lemma LowerIsLowerCased(s: string)
    ensures IsLowerCased(Lower(s))
    ensures Lower(Lower(s)) == Lower(s)
  {
  }

  /** Python's `s.isalnum()`: non-empty and every character a letter or digit. */
  predicate IsAlnum(s: string) {
    |s| > 0 && forall i :: 0 <= i < |s| ==> IsAlnumChar(s[i])
  }

  /** A token of `split()`: non-empty and without whitespace. */
  predicate IsWord(w: string) {
    w != [] && NoSpace(w)
  }

  predicate NoSpace(s: string) {
    forall i :: 0 <= i < |s| ==> !IsSpace(s[i])
  }

  /** Python's `s.startswith(p)`. */
  predicate StartsWith(s: string, p: string) {
    |p| <= |s| && s[..|p|] == p
  }

  /** Python's `s.endswith(p)`. */
  predicate EndsWith(s: string, p: string) {
    |p| <= |s| && s[|s| - |p|..] == p
  }

  /** `p` occurs in `s` starting at position `i`. */
  predicate OccursAt(s: string, p: string, i: int) {
    0 <= i && i + |p| <= |s| && s[i..i + |p|] == p
  }

  /** Python's substring test `p in s`, as a scan over the start positions. */
  function Contains(s: string, p: string): (r: bool)
    ensures r <==> exists i :: OccursAt(s, p, i)
    decreases |s|
  {
    if StartsWith(s, p) then
      assert OccursAt(s, p, 0);
      true
    else if s == [] then
      false
    else
      var r := Contains(s[1..], p);
      if r then
        var i :| OccursAt(s[1..], p, i);
        assert s[i + 1..i + 1 + |p|] == s[1..][i..i + |p|];
        assert OccursAt(s, p, i + 1);
        true
      else
        assert forall i :: OccursAt(s, p, i) ==> i == 0 || OccursAt(s[1..], p, i - 1) by {
          forall i | OccursAt(s, p, i) && i > 0
            ensures OccursAt(s[1..], p, i - 1)
          {
            assert s[1..][i - 1..i - 1 + |p|] == s[i..i + |p|];
          }
        }
        false
  }

  // ---------------------------------------------------------------------------
  // Splitting on whitespace

  /** `s` without its leading whitespace. */
  function DropSpaces(s: string): (r: string)
    ensures |r| <= |s| && r == s[|s| - |r|..]
    ensures r == [] || !IsSpace(r[0])
    ensures forall i :: 0 <= i < |s| - |r| ==> IsSpace(s[i])
  {
    if s != [] && IsSpace(s[0]) then DropSpaces(s[1..]) else s
  }

  /** Length of the longest whitespace-free prefix of `s`. */
  function WordLength(s: string): (n: nat)
    ensures n <= |s|
    ensures forall i :: 0 <= i < n ==> !IsSpace(s[i])
    ensures n == |s| || IsSpace(s[n])
  {
    if s == [] || IsSpace(s[0]) then 0 else 1 + WordLength(s[1..])
  }

  /** Python's `s.split()`: the maximal runs of non-whitespace characters, in order. */
  function Split(s: string): (r: seq<string>)
    ensures |r| <= |s|
    ensures forall i :: 0 <= i < |r| ==> IsWord(r[i])
    decreases |s|
  {
    var t := DropSpaces(s);
    if t == [] then []
    else
      var n := WordLength(t);
      assert n > 0 by { assert !IsSpace(t[0]); }
      assert IsWord(t[..n]);
      var rest := Split(t[n..]);
      WordsCons(t[..n], rest);
      [t[..n]] + rest
  }

  /** A string of whitespace only has no tokens. */
  lemma SplitBlank(s: string)
    requires forall i :: 0 <= i < |s| ==> IsSpace(s[i])
    ensures Split(s) == []
  {
    assert DropSpaces(s) == [];
  }

  /** A single word is its own only token: `split()` never cuts inside a
      run of non-whitespace characters. With `SplitBlank` and `SplitJoin`
      this fixes the tokens as the maximal runs. */
  lemma SplitWord(w: string)
    requires IsWord(w)
    ensures Split(w) == [w]
  {
    assert DropSpaces(w) == w;
    var n := WordLength(w);
    assert n == |w|;
    assert w[n..] == [];
    assert w[..n] == w;
  }

  lemma WordsCons(w: string, rest: seq<string>)
    requires IsWord(w)
    requires forall i :: 0 <= i < |rest| ==> IsWord(rest[i])
    ensures forall i :: 0 <= i < |[w] + rest| ==> IsWord(([w] + rest)[i])
  {
    forall i | 0 <= i < |[w] + rest| ensures IsWord(([w] + rest)[i]) {
      if i > 0 {
        assert ([w] + rest)[i] == rest[i - 1];
      }
    }
  }

  /** The characters of `s` that are not whitespace. */
  function NonSpaces(s: string): string {
    if s == [] then [] else (if IsSpace(s[0]) then [] else [s[0]]) + NonSpaces(s[1..])
  }

  lemma NonSpacesAppend(a: string, b: string)
    ensures NonSpaces(a + b) == NonSpaces(a) + NonSpaces(b)
  {
    if a != [] {
      assert (a + b)[1..] == a[1..] + b;
      NonSpacesAppend(a[1..], b);
    } else {
      assert a + b == b;
    }
  }

  lemma NonSpacesOfSpaces(s: string)
    requires forall i :: 0 <= i < |s| ==> IsSpace(s[i])
    ensures NonSpaces(s) == []
  {
  }

  lemma NonSpacesOfWord(s: string)
    requires NoSpace(s)
    ensures NonSpaces(s) == s
  {
  }

  /** Splitting loses exactly the whitespace: joining the tokens back without
      separators gives the non-whitespace characters of `s`, in order. */
  lemma {:induction false} SplitKeepsNonSpaces(s: string)
    ensures Flatten(Split(s)) == NonSpaces(s)
    decreases |s|
  {
    var t := DropSpaces(s);
    var lead := s[..|s| - |t|];
    TakeDrop(s, |s| - |t|);
    NonSpacesAppend(lead, t);
    NonSpacesOfSpaces(lead);
    if t == [] {
      assert Split(s) == [];
    } else {
      var n := WordLength(t);
      var w, rest := t[..n], t[n..];
      TakeDrop(t, n);
      SplitUnfold(s);
      FlattenCons(w, Split(rest));
      NonSpacesAppend(w, rest);
      NonSpacesOfWord(w);
      SplitKeepsNonSpaces(rest);
    }
  }

  /** Splitting a string made of two parts joined by a whitespace character
      gives the tokens of the first part followed by those of the second. */
  lemma {:induction false} SplitJoin(a: string, sep: char, b: string)
    requires IsSpace(sep)
    ensures Split(a + [sep] + b) == Split(a) + Split(b)
    decreases |a|
  {
    var ta := DropSpaces(a);
    if ta == [] {
      SplitJoinBlank(a, sep, b);
    } else {
      var ra := ta[WordLength(ta)..];
      SplitJoin(ra, sep, b);
      SplitJoinStep(a, sep, b);
    }
  }

  lemma SplitJoinBlank(a: string, sep: char, b: string)
    requires IsSpace(sep) && DropSpaces(a) == []
    ensures Split(a + [sep] + b) == Split(a) + Split(b)
  {
    var s := a + [sep] + b;
    var tail := [sep] + b;
    assert s == a + tail;
    DropSpacesAppend(a, tail);
    assert tail[1..] == b;
    assert DropSpaces(tail) == DropSpaces(b);
    SplitSameStart(s, b);
    assert Split(a) == [];
  }

  /** One induction step of `SplitJoin`: if the claim holds for what follows
      the first word of `a`, it holds for `a`. */
  lemma SplitJoinStep(a: string, sep: char, b: string)
    requires IsSpace(sep) && DropSpaces(a) != []
    ensures var ta := DropSpaces(a); var ra := ta[WordLength(ta)..];
      Split(ra + [sep] + b) == Split(ra) + Split(b) ==> Split(a + [sep] + b) == Split(a) + Split(b)
  {
    var ta := DropSpaces(a);
    var n := WordLength(ta);
    var w, ra := ta[..n], ta[n..];
    var s := a + [sep] + b;
    SplitJoinFront(a, sep, b);
    SplitUnfold(s);
    assert Split(s) == [w] + Split(ra + [sep] + b);
    SplitUnfold(a);
    var sr, sb := Split(ra), Split(b);
    assert Split(a) == [w] + sr;
    if Split(ra + [sep] + b) == sr + sb {
      assert Split(s) == [w] + (sr + sb);
      ConcatAssoc([w], sr, sb);
    }
  }

  /** The first word of `a + [sep] + b` is that of `a`, when `a` has one. */
  lemma SplitJoinFront(a: string, sep: char, b: string)
    requires IsSpace(sep) && DropSpaces(a) != []
    ensures var ta := DropSpaces(a); var n := WordLength(ta); var t := DropSpaces(a + [sep] + b);
      WordLength(t) == n && t[..n] == ta[..n] && t[n..] == ta[n..] + [sep] + b
  {
    var ta := DropSpaces(a);
    ConcatAssoc(a, [sep], b);
    ConcatAssoc(ta[WordLength(ta)..], [sep], b);
    FrontOfAppend(a, [sep] + b);
  }

  lemma FrontOfAppend(a: string, tail: string)
    requires tail != [] && IsSpace(tail[0]) && DropSpaces(a) != []
    ensures var ta := DropSpaces(a); var n := WordLength(ta); var t := DropSpaces(a + tail);
      WordLength(t) == n && t[..n] == ta[..n] && t[n..] == ta[n..] + tail
  {
    var ta := DropSpaces(a);
    DropSpacesAppend(a, tail);
    assert DropSpaces(a + tail) == ta + tail;
    WordLengthAppend(ta, tail);
    SliceOfAppend(ta, tail, WordLength(ta));
  }

  lemma SplitUnfold(s: string)
    requires DropSpaces(s) != []
    ensures var t := DropSpaces(s); var n := WordLength(t); Split(s) == [t[..n]] + Split(t[n..])
  {
  }

  /** The tokens of a string without upper-case letters have none either. */
  lemma {:induction false} SplitLowerCased(s: string)
    requires IsLowerCased(s)
    ensures forall i :: 0 <= i < |Split(s)| ==> IsLowerCased(Split(s)[i])
    decreases |s|
  {
    var t := DropSpaces(s);
    if t != [] {
      var n := WordLength(t);
      SplitUnfold(s);
      LowerCasedParts(s, |s| - |t|);
      LowerCasedParts(t, n);
      SplitLowerCased(t[n..]);
      AllLowerCasedCons(t[..n], Split(t[n..]));
    }
  }

  /** Both parts of a string without upper-case letters have none either. */
  lemma LowerCasedParts(s: string, k: nat)
    requires IsLowerCased(s) && k <= |s|
    ensures IsLowerCased(s[..k]) && IsLowerCased(s[k..])
  {
  }

  lemma AllLowerCasedCons(w: string, rest: seq<string>)
    requires IsLowerCased(w)
    requires forall i :: 0 <= i < |rest| ==> IsLowerCased(rest[i])
    ensures forall i :: 0 <= i < |[w] + rest| ==> IsLowerCased(([w] + rest)[i])
  {
    forall i | 0 <= i < |[w] + rest|
      ensures IsLowerCased(([w] + rest)[i])
    {
      if i > 0 {
        assert ([w] + rest)[i] == rest[i - 1];
      }
    }
  }

  lemma SliceOfAppend<T>(x: seq<T>, y: seq<T>, n: nat)
    requires n <= |x|
    ensures (x + y)[..n] == x[..n]
    ensures (x + y)[n..] == x[n..] + y
  {
  }

  lemma SplitSameStart(s: string, s': string)
    requires DropSpaces(s) == DropSpaces(s')
    ensures Split(s) == Split(s')
  {
  }

  lemma {:induction false} DropSpacesAppend(a: string, b: string)
    requires b != [] && IsSpace(b[0])
    ensures DropSpaces(a) != [] ==> DropSpaces(a + b) == DropSpaces(a) + b
    ensures DropSpaces(a) == [] ==> DropSpaces(a + b) == DropSpaces(b)
  {
    if a != [] {
      assert (a + b)[0] == a[0];
      assert (a + b)[1..] == a[1..] + b;
      if IsSpace(a[0]) {
        DropSpacesAppend(a[1..], b);
      }
    } else {
      assert a + b == b;
    }
  }

  lemma {:induction false} WordLengthAppend(a: string, b: string)
    requires b != [] && IsSpace(b[0])
    ensures WordLength(a + b) == WordLength(a)
  {
    if a != [] {
      assert (a + b)[0] == a[0];
      assert (a + b)[1..] == a[1..] + b;
      if !IsSpace(a[0]) {
        WordLengthAppend(a[1..], b);
      }
    } else {
      assert a + b == b;
    }
  }

  // ---------------------------------------------------------------------------
  // String order (Python's `<` on `str`: lexicographic by code point)

  predicate LexLess(a: string, b: string) {
    if a == [] then b != []
    else if b == [] then false
    else if a[0] != b[0] then a[0] < b[0]
    else LexLess(a[1..], b[1..])
  }

  lemma LexIrreflexive(a: string)
    ensures !LexLess(a, a)
  {
  }

  lemma {:induction false} LexTransitive(a: string, b: string, c: string)
    requires LexLess(a, b) && LexLess(b, c)
    ensures LexLess(a, c)
  {
    if a != [] && b != [] && c != [] && a[0] == b[0] && b[0] == c[0] {
      LexTransitive(a[1..], b[1..], c[1..]);
    }
  }

  lemma {:induction false} LexTotal(a: string, b: string)
    ensures a == b || LexLess(a, b) || LexLess(b, a)
  {
    if a != [] && b != [] && a[0] == b[0] {
      LexTotal(a[1..], b[1..]);
      if a[1..] == b[1..] {
        assert a == [a[0]] + a[1..] && b == [b[0]] + b[1..];
      }
    }
  }

  lemma {:induction false} LexAsymmetric(a: string, b: string)
    requires LexLess(a, b)
    ensures !LexLess(b, a)
  {
    if a != [] && b != [] && a[0] == b[0] {
      LexAsymmetric(a[1..], b[1..]);
    }
  }

  // ---------------------------------------------------------------------------
  // Decimal numerals: Python's `str(n)` and `int(s)` on unsigned ASCII digits

  predicate AllDigits(s: string) {
    forall i :: 0 <= i < |s| ==> IsDigitChar(s[i])
  }

  function DigitChar(d: nat): (c: char)
    requires d < 10
    ensures IsDigitChar(c) && c as int - '0' as int == d
  {
    ('0' as int + d) as char
  }

  /** Python's `str(n)` for a non-negative integer. */
  function NatToString(n: nat): (r: string)
    ensures r != [] && AllDigits(r)
  {
    if n < 10 then [DigitChar(n)] else NatToString(n / 10) + [DigitChar(n % 10)]
  }

  /** The value of a string of decimal digits. */
  function DigitsValue(s: string): nat
    requires AllDigits(s)
  {
    if s == [] then 0
    else DigitsValue(s[..|s| - 1]) * 10 + (s[|s| - 1] as int - '0' as int)
  }

  /** Python's `int(s)`, restricted to non-empty unsigned ASCII digit strings;
      `None` stands for the `ValueError` Python raises on other inputs. */
  function ParseNat(s: string): (r: Option<nat>)
    ensures r.Some? <==> s != [] && AllDigits(s)
  {
    if s != [] && AllDigits(s) then Some(DigitsValue(s)) else None
  }

  /** `int(str(n)) == n`. */
  lemma {:induction false} ParseShowsBack(n: nat)
    ensures ParseNat(NatToString(n)) == Some(n)
  {
    var s := NatToString(n);
    if n >= 10 {
      ParseShowsBack(n / 10);
      assert s[..|s| - 1] == NatToString(n / 10);
      assert s[|s| - 1] == DigitChar(n % 10);
      assert DigitsValue(s) == (n / 10) * 10 + n % 10;
    } else {
      assert s[..0] == [];
    }
  }

  // ---------------------------------------------------------------------------
  // Linguistic resources and the shared preprocessing pipeline

  /** The lemmatizer and the stop-word list, supplied from outside. */
  datatype Config = Config(lemmatize: string -> string, stopWords: set<string>)

  /** Keep a lower-cased token: not a stop word, and, when `alnumOnly`,
      made of letters and digits only. */
  predicate Kept(cfg: Config, alnumOnly: bool, w: string) {
    (!alnumOnly || IsAlnum(w)) && w !in cfg.stopWords
  }

  /** `[lemmatize(w) for w in words if <kept>]`. */
  function Normalize(cfg: Config, alnumOnly: bool, words: seq<string>): (r: seq<string>)
    ensures |r| <= |words|
    ensures forall t :: t in r <==> exists w :: w in words && Kept(cfg, alnumOnly, w) && t == cfg.lemmatize(w)
  {
    if words == [] then []
    else
      (if Kept(cfg, alnumOnly, words[0]) then [cfg.lemmatize(words[0])] else [])
      + Normalize(cfg, alnumOnly, words[1..])
  }

  /** Normalisation works token by token: it preserves the order of the input. */
  lemma {:induction false} NormalizeAppend(cfg: Config, alnumOnly: bool, a: seq<string>, b: seq<string>)
    ensures Normalize(cfg, alnumOnly, a + b) == Normalize(cfg, alnumOnly, a) + Normalize(cfg, alnumOnly, b)
  {
    if a != [] {
      assert (a + b)[0] == a[0];
      assert (a + b)[1..] == a[1..] + b;
      NormalizeAppend(cfg, alnumOnly, a[1..], b);
      var head := if Kept(cfg, alnumOnly, a[0]) then [cfg.lemmatize(a[0])] else [];
      var ra, rb := Normalize(cfg, alnumOnly, a[1..]), Normalize(cfg, alnumOnly, b);
      assert Normalize(cfg, alnumOnly, a + b) == head + (ra + rb);
      assert Normalize(cfg, alnumOnly, a) == head + ra;
      ConcatAssoc(head, ra, rb);
    } else {
      assert a + b == b;
    }
  }

  /** The whitespace tokens of the lower-cased text. */
  function Tokens(text: string): (r: seq<string>)
    ensures |r| <= |text|
    ensures forall i :: 0 <= i < |r| ==> r[i] != [] && NoSpace(r[i]) && IsLowerCased(r[i])
  {
    LowerIsLowerCased(text);
    SplitLowerCased(Lower(text));
    Split(Lower(text))
  }

  /** `[lemmatize(w) for w in text.lower().split() if w not in stop_words]`. */
  function Preprocess(cfg: Config, text: string): (r: seq<string>)
    ensures |r| <= |Tokens(text)|
    ensures forall t :: t in r ==>
      exists w :: w in Tokens(text) && w !in cfg.stopWords && t == cfg.lemmatize(w)
                && w != [] && IsLowerCased(w) && NoSpace(w)
    ensures forall w :: w in Tokens(text) && w !in cfg.stopWords ==> cfg.lemmatize(w) in r
  {
    Normalize(cfg, false, Tokens(text))
  }

  /** The preprocessed terms of every document, in document order. */
  function TermLists(cfg: Config, documents: seq<string>): (r: seq<seq<string>>)
    ensures |r| == |documents|
    ensures forall d :: 0 <= d < |documents| ==> r[d] == Preprocess(cfg, documents[d])
  {
    seq(|documents|, d requires 0 <= d < |documents| => Preprocess(cfg, documents[d]))
  }

  /** Preprocessing a title and a body joined by a space gives the terms of the
      title followed by the terms of the body. */
  lemma PreprocessJoin(cfg: Config, a: string, b: string)
    ensures Preprocess(cfg, a + " " + b) == Preprocess(cfg, a) + Preprocess(cfg, b)
  {
    assert Lower(a + " " + b) == Lower(a) + [' '] + Lower(b);
    SplitJoin(Lower(a), ' ', Lower(b));
    NormalizeAppend(cfg, false, Split(Lower(a)), Split(Lower(b)));
  }
}
