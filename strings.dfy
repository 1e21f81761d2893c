/** Character and string helpers shared by the model: whitespace as Python 2
    byte strings define it, prefix tests, splitting, and the lexicographic
    order Python uses when it compares strings and lists. */
module Strings {
  import opened Wrappers

  /** `str.isspace()` on one byte: space, tab, newline, vertical tab, form feed
      and carriage return. */
  predicate IsSpace(c: char) {
    c == ' ' || (9 <= c as int <= 13)
  }

  predicate StartsWith(s: string, prefix: string) {
    |prefix| <= |s| && s[..|prefix|] == prefix
  }

  /** `s.rstrip()`: drop every trailing whitespace character. */
  function RStrip(s: string): (r: string)
    ensures |r| <= |s| && r == s[..|r|]
    ensures r != [] ==> !IsSpace(r[|r| - 1])
    ensures forall k :: |r| <= k < |s| ==> IsSpace(s[k])
  {
    if s == [] || !IsSpace(s[|s| - 1]) then s else RStrip(s[..|s| - 1])
  }

  /** Splits `s` at every character `sep` accepts, keeping empty pieces, as
      Python's `s.split(',')` does for a single separator. */
  function SplitWhere(s: string, sep: char -> bool): (r: seq<string>)
    ensures |r| >= 1
  {
    if s == [] then [""]
    else
      var rest := SplitWhere(s[1..], sep);
      if sep(s[0]) then [""] + rest else [[s[0]] + rest[0]] + rest[1..]
  }

  /** Puts the pieces back together with `sep` between them. */
  function JoinWith(pieces: seq<string>, sep: char): string {
    if |pieces| <= 1 then (if pieces == [] then "" else pieces[0])
    else pieces[0] + [sep] + JoinWith(pieces[1..], sep)
  }

  /** No piece of a split contains a separator, and joining the pieces with the
      one separator gives back the input. */
  lemma {:induction false} SplitJoin(s: string, sep: char)
    ensures forall p <- SplitWhere(s, c => c == sep) :: sep !in p
    ensures JoinWith(SplitWhere(s, c => c == sep), sep) == s
  {
    if s != [] {
      SplitJoin(s[1..], sep);
      var rest := SplitWhere(s[1..], c => c == sep);
      if s[0] == sep {
        assert SplitWhere(s, c => c == sep) == [""] + rest;
      } else {
        var r := SplitWhere(s, c => c == sep);
        assert r == [[s[0]] + rest[0]] + rest[1..];
        if |rest| > 1 {
          assert rest == [rest[0]] + rest[1..];
          assert JoinWith(rest, sep) == rest[0] + [sep] + JoinWith(rest[1..], sep);
        }
      }
    }
  }

  /** Splitting the joined pieces gives them back, when no piece holds the
      separator: the converse of `SplitJoin`. */
  lemma {:induction false} SplitOfJoin(pieces: seq<string>, sep: char)
    requires pieces != [] && forall p <- pieces :: sep !in p
    ensures SplitWhere(JoinWith(pieces, sep), c => c == sep) == pieces
    decreases |pieces|
  {
    if |pieces| == 1 {
      SplitWord(pieces[0], c => c == sep);
    } else {
      assert forall p <- pieces[1..] :: p in pieces;
      SplitOfJoin(pieces[1..], sep);
      SplitAppend(pieces[0], sep, JoinWith(pieces[1..], sep), c => c == sep);
      SplitWord(pieces[0], c => c == sep);
      assert pieces == [pieces[0]] + pieces[1..];
    }
  }

  /** The joined string ends as its last piece does. */
  lemma {:induction false} JoinWithLast(pieces: seq<string>, sep: char)
    requires pieces != [] && pieces[|pieces| - 1] != []
    ensures JoinWith(pieces, sep) != [] && Last(JoinWith(pieces, sep)) == Last(pieces[|pieces| - 1])
    decreases |pieces|
  {
    if |pieces| > 1 {
      JoinWithLast(pieces[1..], sep);
    }
  }

  /** Removing trailing whitespace from a string followed by whitespace
      gives the string back, when it does not itself end in whitespace. */
  lemma {:induction false} RStripAppend(s: string, ws: string)
    requires s == [] || !IsSpace(Last(s))
    requires forall c <- ws :: IsSpace(c)
    ensures RStrip(s + ws) == s
    decreases |ws|
  {
    if ws == [] {
      assert s + ws == s;
    } else {
      var w := ws[..|ws| - 1];
      assert (s + ws)[..|s + ws| - 1] == s + w;
      assert forall c <- w :: c in ws;
      RStripAppend(s, w);
    }
  }

  /** Keeps the non-empty strings, in order. */
  function NonEmpty(pieces: seq<string>): (r: seq<string>)
    ensures forall p <- r :: p != "" && p in pieces
    ensures forall p <- pieces :: p != "" ==> p in r
    ensures |r| <= |pieces|
  {
    if pieces == [] then []
    else if pieces[0] == "" then NonEmpty(pieces[1..])
    else [pieces[0]] + NonEmpty(pieces[1..])
  }

  /** Nothing is dropped when every piece is non-empty. */
  lemma {:induction false} NonEmptyAll(pieces: seq<string>)
    requires forall p <- pieces :: p != ""
    ensures NonEmpty(pieces) == pieces
    decreases |pieces|
  {
    if pieces != [] {
      assert pieces[0] in pieces;
      assert forall p <- pieces[1..] :: p in pieces;
      NonEmptyAll(pieces[1..]);
      assert pieces == [pieces[0]] + pieces[1..];
    }
  }

  /** Filtering distributes over concatenation, so the pieces kept are the
      non-empty ones in their original order. */
  lemma {:induction false} NonEmptyAppend(a: seq<string>, b: seq<string>)
    ensures NonEmpty(a + b) == NonEmpty(a) + NonEmpty(b)
  {
    if a == [] {
      assert a + b == b;
    } else {
      assert (a + b)[0] == a[0] && (a + b)[1..] == a[1..] + b;
      NonEmptyAppend(a[1..], b);
    }
  }

  /** Splitting at a separator character splits the two sides apart. */
  lemma {:induction false} SplitAppend(a: string, c: char, b: string, sep: char -> bool)
    requires sep(c)
    ensures SplitWhere(a + [c] + b, sep) == SplitWhere(a, sep) + SplitWhere(b, sep)
  {
    if a == [] {
      assert ([c] + b)[1..] == b;
    } else {
      assert (a + [c] + b)[1..] == a[1..] + [c] + b;
      SplitAppend(a[1..], c, b, sep);
    }
  }

  /** A string without a separator is a single piece. */
  lemma {:induction false} SplitWord(w: string, sep: char -> bool)
    requires forall c <- w :: !sep(c)
    ensures SplitWhere(w, sep) == [w]
  {
    if w != [] {
      SplitWord(w[1..], sep);
      assert [w[0]] + w[1..] == w;
    }
  }

  /** `s.split()` with no argument: the maximal runs of non-whitespace. */
  function Words(s: string): (r: seq<string>)
    ensures forall w <- r :: w != [] && forall c <- w :: !IsSpace(c)
  {
    SplitWords(s);
    NonEmpty(SplitWhere(s, IsSpace))
  }

  /** Whitespace separates the words of the two sides. */
  lemma WordsAtSpace(a: string, c: char, b: string)
    requires IsSpace(c)
    ensures Words(a + [c] + b) == Words(a) + Words(b)
  {
    SplitAppend(a, c, b, IsSpace);
    NonEmptyAppend(SplitWhere(a, IsSpace), SplitWhere(b, IsSpace));
  }

  /** A run without whitespace is one word, or none when it is empty. */
  lemma WordsOfWord(w: string)
    requires forall c <- w :: !IsSpace(c)
    ensures Words(w) == if w == [] then [] else [w]
  {
    SplitWord(w, IsSpace);
  }

  /** Two non-empty runs without whitespace around one space are two words. */
  lemma WordsOfTwo(a: string, b: string)
    requires a != [] && b != []
    requires forall c <- a :: !IsSpace(c)
    requires forall c <- b :: !IsSpace(c)
    ensures Words(a + [' '] + b) == [a, b]
  {
    WordsAtSpace(a, ' ', b);
    WordsOfWord(a);
    WordsOfWord(b);
  }

  lemma {:induction false} SplitWords(s: string)
    ensures forall p <- SplitWhere(s, IsSpace) :: forall c <- p :: !IsSpace(c)
  {
    if s != [] {
      SplitWords(s[1..]);
      var rest := SplitWhere(s[1..], IsSpace);
      if !IsSpace(s[0]) {
        var head := [s[0]] + rest[0];
        assert rest[0] in rest;
        assert forall c <- head :: c == s[0] || c in rest[0];
        assert forall p <- rest[1..] :: p in rest;
        assert SplitWhere(s, IsSpace) == [head] + rest[1..];
      }
    }
  }

  predicate IsDigit(c: char) { '0' <= c <= '9' }

  predicate AllDigits(s: string) { forall k :: 0 <= k < |s| ==> IsDigit(s[k]) }

  /** The number a string of decimal digits spells. */
  function DigitsValue(s: string): nat
    requires AllDigits(s)
  {
    if s == [] then 0 else 10 * DigitsValue(s[..|s| - 1]) + (s[|s| - 1] - '0') as nat
  }

  /** Python's `str(n)`: the decimal digits of `n`, without leading zeros. */
  function NatToString(n: nat): (r: string)
    ensures r != [] && AllDigits(r)
    ensures DigitsValue(r) == n
    ensures r[0] == '0' ==> r == "0"
  {
    var d := ['0' + (n % 10) as char];
    if n < 10 then d
    else
      var s := NatToString(n / 10);
      assert (s + d)[..|s + d| - 1] == s;
      s + d
  }

  /** The position of the first `x` in `s`, or `|s|` when there is none. */
  function Find<T(==)>(s: seq<T>, x: T): (k: nat)
    ensures k <= |s| && x !in s[..k]
    ensures k < |s| ==> s[k] == x
  {
    if s == [] then 0 else if s[0] == x then 0 else 1 + Find(s[1..], x)
  }

  lemma {:induction false} FindPrefix<T>(t: seq<T>, p: seq<T>, x: T)
    requires |p| < |t| && t[..|p|] == p && x !in p && t[|p|] == x
    ensures Find(t, x) == |p|
  {
    if p != [] {
      assert t[1..][..|p| - 1] == p[1..];
      FindPrefix(t[1..], p[1..], x);
    }
  }

  /** No element occurs twice. */
  predicate Distinct<T(==)>(s: seq<T>) {
    forall j, k :: 0 <= j < k < |s| ==> s[j] != s[k]
  }

  /** Python truthiness of an optional string argument: given and not
      empty. */
  predicate Given(x: Option<string>) {
    x.Some? && x.value != ""
  }

  /** The last character of `s`, Python's `s[-1]`. */
  function Last(s: string): char
    requires s != []
  {
    s[|s| - 1]
  }

  /** Concatenation is associative and has the empty sequence as unit; stated
      once so that nested sequences need not be compared element by element. */
  lemma AppendAssoc<T>(a: seq<T>, b: seq<T>, c: seq<T>)
    ensures a + b + c == a + (b + c)
  {
  }

  lemma AppendEmpty<T>(a: seq<T>)
    ensures a + [] == a && [] + a == a
  {
  }

  // ---------------------------------------------------------------------------
  // Lexicographic order, as Python compares two strings or two lists.
  // ---------------------------------------------------------------------------

  ghost predicate StrictTotalOrder<T(!new)>(lt: (T, T) -> bool) {
    && (forall x :: !lt(x, x))
    && (forall x, y, z :: lt(x, y) && lt(y, z) ==> lt(x, z))
    && (forall x, y :: x != y ==> lt(x, y) || lt(y, x))
  }

  /** `a < b` for sequences: a proper prefix is smaller, otherwise the first
      differing element decides. */
  predicate LexLt<T(==)>(a: seq<T>, b: seq<T>, lt: (T, T) -> bool) {
    if a == [] then b != []
    else if b == [] then false
    else if a[0] == b[0] then LexLt(a[1..], b[1..], lt)
    else lt(a[0], b[0])
  }

  lemma {:induction false} LexLtIrreflexive<T(!new)>(a: seq<T>, lt: (T, T) -> bool)
    requires StrictTotalOrder(lt)
    ensures !LexLt(a, a, lt)
  {
    if a != [] { LexLtIrreflexive(a[1..], lt); }
  }

  lemma {:induction false} LexLtTransitive<T(!new)>(a: seq<T>, b: seq<T>, c: seq<T>, lt: (T, T) -> bool)
    requires StrictTotalOrder(lt)
    requires LexLt(a, b, lt) && LexLt(b, c, lt)
    ensures LexLt(a, c, lt)
  {
    if a != [] && b != [] && c != [] && a[0] == b[0] && b[0] == c[0] {
      LexLtTransitive(a[1..], b[1..], c[1..], lt);
    }
  }

  lemma {:induction false} LexLtTotal<T(!new)>(a: seq<T>, b: seq<T>, lt: (T, T) -> bool)
    requires StrictTotalOrder(lt)
    requires a != b
    ensures LexLt(a, b, lt) || LexLt(b, a, lt)
  {
    if a != [] && b != [] && a[0] == b[0] {
      assert a == [a[0]] + a[1..] && b == [b[0]] + b[1..];
      LexLtTotal(a[1..], b[1..], lt);
    }
  }

  function CharLt(x: char, y: char): bool { x < y }

  /** Python 2 `str` comparison. */
  predicate StrLt(a: string, b: string) {
    LexLt(a, b, CharLt)
  }

  lemma StrLtIsStrictTotalOrder()
    ensures StrictTotalOrder(StrLt)
  {
    assert StrictTotalOrder(CharLt);
    forall a: string ensures !StrLt(a, a) { LexLtIrreflexive(a, CharLt); }
    forall a: string, b: string, c: string | StrLt(a, b) && StrLt(b, c) ensures StrLt(a, c) {
      LexLtTransitive(a, b, c, CharLt);
    }
    forall a: string, b: string | a != b ensures StrLt(a, b) || StrLt(b, a) {
      LexLtTotal(a, b, CharLt);
    }
  }
}
