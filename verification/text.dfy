/** String helpers shared by the validators and the review dialogs: the
    `/^\d{10}$/` mobile format, `String.prototype.trim`, the comma/newline
    tokeniser and `Array.prototype.join`. */
module Text {
  import Seqs

  predicate IsDigit(c: char) { '0' <= c <= '9' }

  /** `/^\d{10}$/.test(s)`: exactly ten ASCII digits, nothing else. */
  predicate IsTenDigits(s: string) {
    |s| == 10 && forall i | 0 <= i < |s| :: IsDigit(s[i])
  }

  /** The characters `String.prototype.trim` removes (ECMAScript WhiteSpace
      and LineTerminator). */
  const WhiteSpace: set<char> := {
    '\t', '\n', '\U{000B}', '\U{000C}', '\r', ' ', '\U{00A0}', '\U{1680}',
    '\U{2000}', '\U{2001}', '\U{2002}', '\U{2003}', '\U{2004}', '\U{2005}',
    '\U{2006}', '\U{2007}', '\U{2008}', '\U{2009}', '\U{200A}',
    '\U{2028}', '\U{2029}', '\U{202F}', '\U{205F}', '\U{3000}', '\U{FEFF}'
  }

  predicate IsSpace(c: char) { c in WhiteSpace }

  /** Neither end is whitespace. */
  predicate Trimmed(s: string) {
    |s| == 0 || (!IsSpace(s[0]) && !IsSpace(s[|s| - 1]))
  }

  /** The first position at or after `i` that is not whitespace. */
  function SkipSpaces(s: string, i: nat): (r: nat)
    requires i <= |s|
    ensures i <= r <= |s|
    ensures forall j | i <= j < r :: IsSpace(s[j])
    ensures r == |s| || !IsSpace(s[r])
    decreases |s| - i
  {
    if i < |s| && IsSpace(s[i]) then SkipSpaces(s, i + 1) else i
  }

  /** The end of `s[lo..j]` once its trailing whitespace is dropped. */
  function SkipSpacesBack(s: string, lo: nat, j: nat): (r: nat)
    requires lo <= j <= |s|
    ensures lo <= r <= j
    ensures forall k | r <= k < j :: IsSpace(s[k])
    ensures r == lo || !IsSpace(s[r - 1])
    decreases j
  {
    if j > lo && IsSpace(s[j - 1]) then SkipSpacesBack(s, lo, j - 1) else j
  }

  /** Only whitespace lies outside `s[lo..hi]`. */
  predicate Strips(s: string, lo: int, hi: int) {
    && 0 <= lo <= hi <= |s|
    && (forall j | 0 <= j < lo :: IsSpace(s[j]))
    && (forall j | hi <= j < |s| :: IsSpace(s[j]))
  }

  /** `s.trim()`: leading and trailing whitespace removed. The result is a
      trimmed piece of `s` with only whitespace around it, and `TrimUnique`
      shows there is just one such piece. */
  function Trim(s: string): (r: string)
    ensures Trimmed(r)
    ensures exists lo, hi | Strips(s, lo, hi) :: r == s[lo..hi]
    ensures IsInfix(r, s)
    ensures |s| > 0 && !IsSpace(s[0]) ==> |r| > 0 && r[0] == s[0]
  {
    var lo := SkipSpaces(s, 0);
    var hi := SkipSpacesBack(s, lo, |s|);
    assert Strips(s, lo, hi);
    assert InfixAt(s[lo..hi], s, lo);
    s[lo..hi]
  }

  /** A trimmed piece of `s` with only whitespace around it is `Trim(s)`. */
  lemma TrimUnique(s: string, lo: int, hi: int)
    requires Strips(s, lo, hi) && Trimmed(s[lo..hi])
    ensures Trim(s) == s[lo..hi]
  {
    var a := SkipSpaces(s, 0);
    if lo < hi {
      assert s[lo..hi][0] == s[lo] && s[lo..hi][hi - lo - 1] == s[hi - 1];
      assert a == lo;
      var b := SkipSpacesBack(s, a, |s|);
      assert b == hi;
    } else {
      assert forall j | 0 <= j < |s| :: IsSpace(s[j]);
      assert a == |s|;
    }
  }

  /** `t` occurs in `s` starting at offset `k`. */
  predicate InfixAt(t: string, s: string, k: int) {
    0 <= k <= |s| - |t| && s[k..k + |t|] == t
  }

  /** `t` occurs as a contiguous piece of `s`. */
  predicate IsInfix(t: string, s: string) {
    exists k | 0 <= k <= |s| :: InfixAt(t, s, k)
  }

  /** Trimming changes nothing on a string that has no whitespace at its ends. */
  lemma TrimOfTrimmed(s: string)
    requires Trimmed(s)
    ensures Trim(s) == s
  {
  }

  predicate IsSeparator(c: char) { c == ',' || c == '\n' }

  predicate NoSeparator(s: string) {
    forall i | 0 <= i < |s| :: !IsSeparator(s[i])
  }

  /** The separators of `s`, in order. */
  function SeparatorsOf(s: string): (r: string)
    ensures forall i | 0 <= i < |r| :: IsSeparator(r[i])
    decreases |s|
  {
    if |s| == 0 then []
    else (if IsSeparator(s[0]) then [s[0]] else []) + SeparatorsOf(s[1..])
  }

  /** `fs[0] + seps[0] + fs[1] + … + fs[n]`: pieces put back together. */
  function Weave(fs: seq<string>, seps: string): string
    requires |fs| == |seps| + 1
    decreases |seps|
  {
    if |seps| == 0 then fs[0] else fs[0] + [seps[0]] + Weave(fs[1..], seps[1..])
  }

  /** A character put in front of the first piece goes in front of the
      whole. */
  lemma WeaveCons(c: char, fs: seq<string>, seps: string)
    requires |fs| == |seps| + 1
    ensures Weave([[c] + fs[0]] + fs[1..], seps) == [c] + Weave(fs, seps)
  {
    var gs := [[c] + fs[0]] + fs[1..];
    assert gs[1..] == fs[1..];
    if |seps| > 0 {
      assert ([c] + fs[0]) + [seps[0]] + Weave(fs[1..], seps[1..])
          == [c] + (fs[0] + [seps[0]] + Weave(fs[1..], seps[1..]));
    }
  }

  /** The pieces between single separators: one more piece than there are
      separators, none holding a separator, and woven back together with
      the separators they give `s` again. */
  function Fields(s: string): (r: seq<string>)
    ensures |r| == |SeparatorsOf(s)| + 1
    ensures forall i | 0 <= i < |r| :: NoSeparator(r[i])
    ensures Weave(r, SeparatorsOf(s)) == s
    decreases |s|
  {
    if |s| == 0 then [""]
    else
      var rest := Fields(s[1..]);
      if IsSeparator(s[0]) then
        var r := [""] + rest;
        assert r[1..] == rest;
        assert Weave(r, SeparatorsOf(s)) == [s[0]] + s[1..] == s;
        r
      else
        assert SeparatorsOf(s) == SeparatorsOf(s[1..]);
        WeaveCons(s[0], rest, SeparatorsOf(s[1..]));
        assert [s[0]] + s[1..] == s;
        [[s[0]] + rest[0]] + rest[1..]
  }

  /** `s` with its leading separators dropped. */
  function DropSeparators(s: string): (r: string)
    ensures |r| <= |s|
    ensures |r| == 0 || !IsSeparator(r[0])
    decreases |s|
  {
    if |s| > 0 && IsSeparator(s[0]) then DropSeparators(s[1..]) else s
  }

  /** `s.split(/[\n,]+/)`: the pieces between maximal runs of separators.
      Only the first and the last piece can be empty. */
  function SplitRuns(s: string): (r: seq<string>)
    ensures |r| >= 1
    ensures forall i | 0 <= i < |r| :: NoSeparator(r[i])
    ensures forall i | 0 < i < |r| - 1 :: |r[i]| > 0
    ensures |s| > 0 && !IsSeparator(s[0]) ==> |r[0]| > 0
    decreases |s|
  {
    if |s| == 0 then [""]
    else if IsSeparator(s[0]) then [""] + SplitRuns(DropSeparators(s[1..]))
    else
      var rest := SplitRuns(s[1..]);
      [[s[0]] + rest[0]] + rest[1..]
  }

  function Trims(xs: seq<string>): (r: seq<string>)
    ensures |r| == |xs|
    ensures forall i | 0 <= i < |xs| :: r[i] == Trim(xs[i])
  {
    Seqs.Map(xs, Trim)
  }

  function NonEmpty(xs: seq<string>): (r: seq<string>)
    ensures forall t | t in r :: t in xs && |t| > 0
    ensures forall t | t in xs && |t| > 0 :: t in r
    decreases |xs|
  {
    if |xs| == 0 then []
    else (if |xs[0]| > 0 then [xs[0]] else []) + NonEmpty(xs[1..])
  }

  /** Trim every piece and keep the non-empty ones. */
  function Clean(fs: seq<string>): seq<string> {
    NonEmpty(Trims(fs))
  }

  /** `text.split(/[\n,]+/).map(n => n.trim()).filter(n => n.length > 0)`. */
  function Tokenize(text: string): (r: seq<string>)
    ensures forall t | t in r :: |t| > 0 && Trimmed(t) && NoSeparator(t)
  {
    var fs := SplitRuns(text);
    TrimsNoSeparator(fs);
    Clean(fs)
  }

  lemma TrimsAppend(xs: seq<string>, ys: seq<string>)
    ensures Trims(xs + ys) == Trims(xs) + Trims(ys)
  {
    Seqs.MapAppend(xs, ys, Trim);
  }

  lemma {:induction false} NonEmptyAppend(xs: seq<string>, ys: seq<string>)
    ensures NonEmpty(xs + ys) == NonEmpty(xs) + NonEmpty(ys)
    decreases |xs|
  {
    if |xs| == 0 {
      assert xs + ys == ys;
    } else {
      assert (xs + ys)[0] == xs[0] && (xs + ys)[1..] == xs[1..] + ys;
      NonEmptyAppend(xs[1..], ys);
      var h: seq<string> := if |xs[0]| > 0 then [xs[0]] else [];
      assert h + (NonEmpty(xs[1..]) + NonEmpty(ys)) == (h + NonEmpty(xs[1..])) + NonEmpty(ys);
    }
  }

  lemma NonEmptyOne(x: string)
    ensures NonEmpty([x]) == if |x| > 0 then [x] else []
  {
    assert [x][1..] == [];
  }

  lemma CleanOne(x: string)
    ensures Clean([x]) == if Trim(x) == "" then [] else [Trim(x)]
  {
    assert Trims([x]) == [Trim(x)];
    NonEmptyOne(Trim(x));
  }

  lemma CleanAppend(xs: seq<string>, ys: seq<string>)
    ensures Clean(xs + ys) == Clean(xs) + Clean(ys)
  {
    TrimsAppend(xs, ys);
    NonEmptyAppend(Trims(xs), Trims(ys));
  }

  /** Cleaning a list is cleaning its head and then its tail. */
  lemma CleanCons(xs: seq<string>)
    requires |xs| > 0
    ensures Clean(xs) == Clean([xs[0]]) + Clean(xs[1..])
  {
    assert xs == [xs[0]] + xs[1..];
    CleanAppend([xs[0]], xs[1..]);
  }

  /** An empty piece leaves no token. */
  lemma CleanEmptyPiece(xs: seq<string>)
    ensures Clean([""] + xs) == Clean(xs)
  {
    CleanAppend([""], xs);
    assert Trim("") == "";
    assert Trims([""]) == [""];
  }

  /** A single separator splits the fields in two. */
  lemma {:induction false} FieldsSplit(a: string, c: char, b: string)
    requires IsSeparator(c)
    ensures Fields(a + [c] + b) == Fields(a) + Fields(b)
    decreases |a|
  {
    var s := a + [c] + b;
    if |a| == 0 {
      assert s[0] == c && s[1..] == b;
    } else {
      assert s[0] == a[0] && s[1..] == a[1..] + [c] + b;
      FieldsSplit(a[1..], c, b);
      if !IsSeparator(a[0]) {
        GlueFirst([a[0]], Fields(a[1..]), Fields(b));
      }
    }
  }

  lemma GlueFirst(h: string, xs: seq<string>, ys: seq<string>)
    requires |xs| > 0
    ensures [h + (xs + ys)[0]] + (xs + ys)[1..] == ([h + xs[0]] + xs[1..]) + ys
  {
    assert (xs + ys)[0] == xs[0] && (xs + ys)[1..] == xs[1..] + ys;
  }

  /** Leading separators leave only empty pieces in front, which cleaning
      drops. */
  lemma {:induction false} CleanFieldsDrop(u: string)
    ensures Clean(Fields(u)) == Clean(Fields(DropSeparators(u)))
    decreases |u|
  {
    if |u| > 0 && IsSeparator(u[0]) {
      CleanFieldsDrop(u[1..]);
      CleanEmptyPiece(Fields(u[1..]));
    }
  }

  /** Splitting on runs and on single separators agree on the first piece
      and, once cleaned, on the rest. */
  lemma {:induction false} SplitRunsAgree(s: string)
    ensures SplitRuns(s)[0] == Fields(s)[0]
    ensures Clean(SplitRuns(s)[1..]) == Clean(Fields(s)[1..])
    decreases |s|
  {
    if |s| > 0 {
      var r := SplitRuns(s);
      var f := Fields(s);
      if IsSeparator(s[0]) {
        var d := DropSeparators(s[1..]);
        SplitRunsAgree(d);
        assert r[1..] == SplitRuns(d) && f[1..] == Fields(s[1..]);
        CleanCons(SplitRuns(d));
        CleanCons(Fields(d));
        CleanFieldsDrop(s[1..]);
      } else {
        SplitRunsAgree(s[1..]);
        assert r[1..] == SplitRuns(s[1..])[1..] && f[1..] == Fields(s[1..])[1..];
      }
    }
  }

  /** Tokenizing is cleaning the single-separator fields. */
  lemma TokenizeByFields(s: string)
    ensures Tokenize(s) == Clean(Fields(s))
  {
    SplitRunsAgree(s);
    CleanCons(SplitRuns(s));
    CleanCons(Fields(s));
  }

  /** A separator splits the tokens in two. */
  lemma TokenizeSplit(a: string, c: char, b: string)
    requires IsSeparator(c)
    ensures Tokenize(a + [c] + b) == Tokenize(a) + Tokenize(b)
  {
    TokenizeByFields(a + [c] + b);
    TokenizeByFields(a);
    TokenizeByFields(b);
    FieldsSplit(a, c, b);
    CleanAppend(Fields(a), Fields(b));
  }

  /** Text with no separator is one token, its trimmed self, unless that is
      empty. */
  lemma TokenizePiece(t: string)
    requires NoSeparator(t)
    ensures Tokenize(t) == if Trim(t) == "" then [] else [Trim(t)]
  {
    TokenizeByFields(t);
    FieldsOfPiece(t);
    CleanOne(t);
  }

  lemma TrimsNoSeparator(fs: seq<string>)
    requires forall i | 0 <= i < |fs| :: NoSeparator(fs[i])
    ensures forall t | t in Trims(fs) :: NoSeparator(t)
  {
    var ts := Trims(fs);
    forall t | t in ts ensures NoSeparator(t) {
      var i :| 0 <= i < |ts| && ts[i] == t;
      TrimInfix(fs[i]);
    }
  }

  lemma TrimInfix(s: string)
    requires NoSeparator(s)
    ensures NoSeparator(Trim(s))
  {
    var r := Trim(s);
    var k :| 0 <= k <= |s| && InfixAt(r, s, k);
    forall i | 0 <= i < |r| ensures !IsSeparator(r[i]) {
      assert r[i] == s[k..k + |r|][i] == s[k + i];
    }
  }

  /** `xs.join(sep)`. */
  function JoinWith(xs: seq<string>, sep: string): string
    decreases |xs|
  {
    if |xs| == 0 then ""
    else if |xs| == 1 then xs[0]
    else xs[0] + sep + JoinWith(xs[1..], sep)
  }

  lemma {:induction false} FieldsOfPiece(a: string)
    requires NoSeparator(a)
    ensures Fields(a) == [a]
    decreases |a|
  {
    if |a| > 0 {
      FieldsOfPiece(a[1..]);
      assert [a[0]] + a[1..] == a;
    }
  }

  /** Tokens joined by commas tokenise back to the same tokens. */
  lemma {:induction false} FieldsOfJoin(toks: seq<string>)
    requires |toks| > 0
    requires forall t | t in toks :: NoSeparator(t)
    ensures Fields(JoinWith(toks, ",")) == toks
    decreases |toks|
  {
    if |toks| == 1 {
      FieldsOfPiece(toks[0]);
    } else {
      FieldsOfJoin(toks[1..]);
      assert JoinWith(toks, ",") == toks[0] + [','] + JoinWith(toks[1..], ",");
      FieldsSplit(toks[0], ',', JoinWith(toks[1..], ","));
      FieldsOfPiece(toks[0]);
      assert [toks[0]] + toks[1..] == toks;
    }
  }

  lemma {:induction false} NonEmptyKeeps(xs: seq<string>)
    requires forall t | t in xs :: |t| > 0
    ensures NonEmpty(xs) == xs
    decreases |xs|
  {
    if |xs| > 0 {
      NonEmptyKeeps(xs[1..]);
      assert [xs[0]] + xs[1..] == xs;
    }
  }

  /** The tokeniser inverts `join(",")` on well-formed tokens. */
  lemma TokenizeJoin(toks: seq<string>)
    requires forall t | t in toks :: |t| > 0 && Trimmed(t) && NoSeparator(t)
    ensures Tokenize(JoinWith(toks, ",")) == toks
  {
    TokenizeByFields(JoinWith(toks, ","));
    if |toks| == 0 {
      assert Fields("") == [""];
      TrimsOfTrimmed([""]);
      assert NonEmpty([""]) == [];
    } else {
      FieldsOfJoin(toks);
      TrimsOfTrimmed(toks);
      NonEmptyKeeps(toks);
    }
  }

  lemma TrimsOfTrimmed(xs: seq<string>)
    requires forall i | 0 <= i < |xs| :: Trimmed(xs[i])
    ensures Trims(xs) == xs
  {
    forall i | 0 <= i < |xs| ensures Trim(xs[i]) == xs[i] {
      TrimOfTrimmed(xs[i]);
    }
  }


  /** Every joined element appears in the joined text. */
  lemma {:induction false} JoinedElementsAppear(xs: seq<string>, sep: string, i: nat)
    requires i < |xs|
    ensures IsInfix(xs[i], JoinWith(xs, sep))
    decreases |xs|
  {
    var s := JoinWith(xs, sep);
    if |xs| == 1 {
      assert InfixAt(xs[0], s, 0);
    } else if i == 0 {
      assert s == xs[0] + sep + JoinWith(xs[1..], sep);
      assert InfixAt(xs[0], s, 0);
    } else {
      JoinedElementsAppear(xs[1..], sep, i - 1);
      var rest := JoinWith(xs[1..], sep);
      assert xs[1..][i - 1] == xs[i];
      var k :| 0 <= k <= |rest| && InfixAt(xs[i], rest, k);
      var off := |xs[0]| + |sep|;
      assert s == xs[0] + sep + rest;
      assert s[off + k..off + k + |xs[i]|] == rest[k..k + |xs[i]|];
      assert InfixAt(xs[i], s, off + k);
    }
  }

  /** Decimal rendering of a count (`${n}`). */
  function NatToString(n: nat): (r: string)
    ensures |r| > 0
    ensures forall i | 0 <= i < |r| :: IsDigit(r[i])
    decreases n
  {
    var d := ['0' + (n % 10) as char];
    if n < 10 then d else NatToString(n / 10) + d
  }

  /** The value of a string of decimal digits. */
  function DigitsValue(s: string): nat
    decreases |s|
  {
    if |s| == 0 then 0
    else 10 * DigitsValue(s[..|s| - 1]) + (if IsDigit(s[|s| - 1]) then (s[|s| - 1] as int - '0' as int) else 0)
  }

  /** Reading the rendering back gives the number. */
  lemma {:induction false} NatToStringValue(n: nat)
    ensures DigitsValue(NatToString(n)) == n
    decreases n
  {
    var s := NatToString(n);
    if n >= 10 {
      NatToStringValue(n / 10);
      assert s[..|s| - 1] == NatToString(n / 10);
    }
  }
}
