/** String helpers that the advisory-map and CVE-table loaders rely on:
    Python's `str.split(sep)`, `sep.join(parts)`, `str.split()` (split on
    runs of whitespace) and the slice `s[:n]`, written as pure functions
    over `seq<char>`, with the lemmas that tie them together. */
module Text {

  /** Number of occurrences of `c` in `s`. */
  function Count(s: string, c: char): nat {
    multiset(s)[c]
  }

  /** Python's `s.split(sep)` with an explicit one-character separator:
      every occurrence of `sep` cuts, empty pieces are kept, and the
      result always has at least one element ("".split(",") == [""]). */
  function Split(s: string, sep: char): (parts: seq<string>)
    ensures |parts| >= 1
  {
    if |s| == 0 then [""]
    else
      var rest := Split(s[1..], sep);
      if s[0] == sep then [""] + rest
      else [[s[0]] + rest[0]] + rest[1..]
  }

  /** Python's `sep.join(parts)`. */
  function Join(parts: seq<string>, sep: char): (s: string)
    ensures |s| >= |parts| - 1
  {
    if |parts| == 0 then ""
    else if |parts| == 1 then parts[0]
    else parts[0] + [sep] + Join(parts[1..], sep)
  }

  /** The last piece of `Split(s, sep)`. */
  function LastPiece(s: string, sep: char): string {
    var parts := Split(s, sep);
    parts[|parts| - 1]
  }

  /** Joining the pieces back with the same separator gives the original string. */
  lemma {:induction false} JoinSplit(s: string, sep: char)
    ensures Join(Split(s, sep), sep) == s
  {
    if |s| > 0 {
      var rest := Split(s[1..], sep);
      JoinSplit(s[1..], sep);
      if s[0] == sep {
        assert Split(s, sep) == [""] + rest;
        assert ([""] + rest)[1..] == rest;
      } else {
        assert Split(s, sep) == [[s[0]] + rest[0]] + rest[1..];
        JoinExtendFirst(s[0], rest, sep);
      }
      assert s == [s[0]] + s[1..];
    }
  }

  /** Putting a character in front of the first piece puts it in front of the join. */
  lemma {:induction false} JoinExtendFirst(c: char, parts: seq<string>, sep: char)
    requires |parts| >= 1
    ensures Join([[c] + parts[0]] + parts[1..], sep) == [c] + Join(parts, sep)
  {
    var ext := [[c] + parts[0]] + parts[1..];
    assert ext[0] == [c] + parts[0] && ext[1..] == parts[1..];
    if |parts| > 1 {
      assert Join(ext, sep) == ([c] + parts[0]) + [sep] + Join(parts[1..], sep);
    }
  }

  /** No piece contains the separator, and there is one piece more than
      there are separators. */
  lemma {:induction false} SplitPieces(s: string, sep: char)
    ensures forall i :: 0 <= i < |Split(s, sep)| ==> sep !in Split(s, sep)[i]
    ensures |Split(s, sep)| == Count(s, sep) + 1
  {
    if |s| > 0 {
      SplitPieces(s[1..], sep);
      assert s == [s[0]] + s[1..];
      assert multiset(s) == multiset([s[0]]) + multiset(s[1..]);
      var rest := Split(s[1..], sep);
      if s[0] != sep {
        var parts := Split(s, sep);
        forall i | 0 <= i < |parts| ensures sep !in parts[i] {
          if i == 0 {
            assert parts[0] == [s[0]] + rest[0];
          } else {
            assert parts[i] == rest[i];
          }
        }
      }
    }
  }

  /** A string without the separator is one piece. */
  lemma {:induction false} SplitWhole(s: string, sep: char)
    requires sep !in s
    ensures Split(s, sep) == [s]
  {
    SplitPieces(s, sep);
    JoinSplit(s, sep);
  }

  /** Cutting at a separator splits the pieces of the two sides apart. */
  lemma {:induction false} SplitAtSeparator(x: string, y: string, sep: char)
    ensures Split(x + [sep] + y, sep) == Split(x, sep) + Split(y, sep)
  {
    if |x| == 0 {
      assert x + [sep] + y == [sep] + y;
      assert ([sep] + y)[1..] == y;
    } else {
      var s := x + [sep] + y;
      assert s[1..] == x[1..] + [sep] + y;
      SplitAtSeparator(x[1..], y, sep);
    }
  }

  /** Appending text without the separator lengthens the last piece only. */
  lemma {:induction false} SplitExtendLast(x: string, t: string, sep: char)
    requires sep !in t
    ensures var p := Split(x, sep);
      Split(x + t, sep) == p[..|p| - 1] + [p[|p| - 1] + t]
  {
    if |x| == 0 {
      SplitWhole(t, sep);
      assert x + t == t;
    } else {
      assert (x + t)[1..] == x[1..] + t;
      SplitExtendLast(x[1..], t, sep);
      ExtendStep(x, t, sep);
    }
  }

  /** The step of `SplitExtendLast`: extending the tail's last piece
      extends the whole string's last piece. */
  lemma {:induction false} ExtendStep(x: string, t: string, sep: char)
    requires |x| > 0
    requires var r := Split(x[1..], sep);
      Split(x[1..] + t, sep) == r[..|r| - 1] + [r[|r| - 1] + t]
    ensures var p := Split(x, sep);
      Split(x + t, sep) == p[..|p| - 1] + [p[|p| - 1] + t]
  {
    var xt := x + t;
    assert xt[0] == x[0] && xt[1..] == x[1..] + t;
    var r := Split(x[1..], sep);
    var r' := Split(x[1..] + t, sep);
    if x[0] == sep {
      ExtendAfterSeparator(Split(x, sep), Split(xt, sep), r, r', t);
    } else {
      ExtendFirstPiece([x[0]], Split(x, sep), Split(xt, sep), r, r', t);
    }
  }

  lemma {:induction false} ExtendAfterSeparator(p: seq<string>, q: seq<string>, r: seq<string>, r': seq<string>, t: string)
    requires |r| > 0 && r' == r[..|r| - 1] + [r[|r| - 1] + t]
    requires p == [""] + r && q == [""] + r'
    ensures q == p[..|p| - 1] + [p[|p| - 1] + t]
  {
    assert p[..|p| - 1] == [""] + r[..|r| - 1];
  }

  lemma {:induction false} ExtendFirstPiece(c: string, p: seq<string>, q: seq<string>, r: seq<string>, r': seq<string>, t: string)
    requires |r| > 0 && r' == r[..|r| - 1] + [r[|r| - 1] + t]
    requires p == [c + r[0]] + r[1..] && q == [c + r'[0]] + r'[1..]
    ensures q == p[..|p| - 1] + [p[|p| - 1] + t]
  {
    var n := |r|;
    if n == 1 {
      assert c + (r[0] + t) == (c + r[0]) + t;
    } else {
      assert r'[1..] == r[1..n - 1] + [r[n - 1] + t];
      assert p[..|p| - 1] == [c + r[0]] + r[1..n - 1];
    }
  }

  /** `Join` of pieces followed by one more piece. */
  lemma {:induction false} JoinSnoc(parts: seq<string>, last: string, sep: char)
    requires |parts| >= 1
    ensures Join(parts + [last], sep) == Join(parts, sep) + [sep] + last
  {
    if |parts| == 1 {
      assert parts + [last] == [parts[0], last];
    } else {
      assert (parts + [last])[1..] == parts[1..] + [last];
      JoinSnoc(parts[1..], last, sep);
    }
  }

  /** Splitting a join gives the pieces back when none of them contains
      the separator. */
  lemma {:induction false} SplitJoin(parts: seq<string>, sep: char)
    requires |parts| >= 1
    requires forall i :: 0 <= i < |parts| ==> sep !in parts[i]
    ensures Split(Join(parts, sep), sep) == parts
  {
    if |parts| == 1 {
      SplitWhole(parts[0], sep);
    } else {
      SplitJoin(parts[1..], sep);
      SplitWhole(parts[0], sep);
      SplitAtSeparator(parts[0], Join(parts[1..], sep), sep);
      assert parts == [parts[0]] + parts[1..];
    }
  }

  /** Python's `s[:n]` for a non-negative `n`: the whole string when `n`
      reaches past its end. */
  function Slice(s: string, n: nat): (r: string)
    ensures r <= s
    ensures |r| == if n <= |s| then n else |s|
  {
    if n <= |s| then s[..n] else s
  }

  /** `c[:len(p)] == p` is exactly "p is a prefix of c". */
  lemma {:induction false} SliceIsPrefix(c: string, p: string)
    ensures Slice(c, |p|) == p <==> p <= c
  {
  }

  /** The bytes Python 2's `str.split()` treats as whitespace. */
  predicate IsSpace(c: char) {
    c == ' ' || c == '\t' || c == '\n' || c == '\r' || c == '\U{0B}' || c == '\U{0C}'
  }

  predicate NoSpace(w: string) {
    forall i :: 0 <= i < |w| ==> !IsSpace(w[i])
  }

  /** Length of the word at the front of `s`: up to the first whitespace
      character or the end. */
  function WordEnd(s: string): (n: nat)
    requires |s| > 0 && !IsSpace(s[0])
    ensures 1 <= n <= |s|
    ensures NoSpace(s[..n])
    ensures n < |s| ==> IsSpace(s[n])
  {
    if |s| == 1 || IsSpace(s[1]) then 1 else 1 + WordEnd(s[1..])
  }

  /** Python's `s.split()` without arguments: the maximal runs of
      non-whitespace characters, in order. */
  function Words(s: string): (ws: seq<string>)
    ensures forall i :: 0 <= i < |ws| ==> ws[i] != [] && NoSpace(ws[i])
    decreases |s|
  {
    if |s| == 0 then []
    else if IsSpace(s[0]) then Words(s[1..])
    else
      var n := WordEnd(s);
      [s[..n]] + Words(s[n..])
  }

  lemma {:induction false} WordEndBeforeSpace(x: string, c: char, y: string)
    requires |x| > 0 && !IsSpace(x[0]) && IsSpace(c)
    ensures WordEnd(x + [c] + y) == WordEnd(x)
  {
    if |x| > 1 && !IsSpace(x[1]) {
      assert (x + [c] + y)[1..] == x[1..] + [c] + y;
      WordEndBeforeSpace(x[1..], c, y);
    }
  }

  /** A whitespace character separates the words on its two sides. */
  lemma {:induction false} WordsAtSpace(x: string, c: char, y: string)
    requires IsSpace(c)
    ensures Words(x + [c] + y) == Words(x) + Words(y)
    decreases |x|
  {
    var s := x + [c] + y;
    if |x| == 0 {
      assert s == [c] + y;
      assert s[1..] == y;
    } else if IsSpace(x[0]) {
      assert s[1..] == x[1..] + [c] + y;
      WordsAtSpace(x[1..], c, y);
    } else {
      WordEndBeforeSpace(x, c, y);
      var n := WordEnd(x);
      assert s[..n] == x[..n];
      assert s[n..] == x[n..] + [c] + y;
      WordsAtSpace(x[n..], c, y);
    }
  }

  /** A non-empty string without whitespace is one word. */
  lemma {:induction false} WordsOfWord(w: string)
    requires w != [] && NoSpace(w)
    ensures Words(w) == [w]
  {
    assert WordEnd(w) == |w|;
    assert w[..|w|] == w && w[|w|..] == [];
    assert Words(w) == [w[..|w|]] + Words(w[|w|..]);
  }

  /** Words joined by single spaces split back into the same words. */
  lemma {:induction false} WordsJoin(ws: seq<string>)
    requires |ws| >= 1
    requires forall i :: 0 <= i < |ws| ==> ws[i] != [] && NoSpace(ws[i])
    ensures Words(Join(ws, ' ')) == ws
  {
    WordsOfWord(ws[0]);
    if |ws| > 1 {
      WordsJoin(ws[1..]);
      WordsAtSpace(ws[0], ' ', Join(ws[1..], ' '));
      assert ws == [ws[0]] + ws[1..];
    }
  }

  /** A run of whitespace, possibly empty. */
  predicate AllSpace(s: string) {
    forall i :: 0 <= i < |s| ==> IsSpace(s[i])
  }

  /** Leading whitespace is skipped. */
  lemma {:induction false} WordsAfterSpaces(sp: string, y: string)
    requires AllSpace(sp)
    ensures Words(sp + y) == Words(y)
    decreases |sp|
  {
    if sp == [] {
      assert sp + y == y;
    } else {
      assert (sp + y)[0] == sp[0] && (sp + y)[1..] == sp[1..] + y;
      WordsAfterSpaces(sp[1..], y);
    }
  }

  /** A non-empty run of whitespace separates the words on its two sides. */
  lemma {:induction false} WordsAtRun(x: string, sp: string, y: string)
    requires sp != [] && AllSpace(sp)
    ensures Words(x + sp + y) == Words(x) + Words(y)
  {
    assert x + sp + y == x + [sp[0]] + (sp[1..] + y);
    WordsAtSpace(x, sp[0], sp[1..] + y);
    WordsAfterSpaces(sp[1..], y);
  }
}
