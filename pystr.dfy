/**
 * The Python `str` methods the query interpreter is built from:
 * `find`/`in`, `startswith`, `split(sep)`, `sep.join`, `replace`,
 * `strip()`, `split()` and `upper()`, on strings as sequences of characters.
 */
module PyStr {
  import opened Wrappers

  /** Python's `str.isspace()` for one character: the characters that
      `strip()` removes and on which `split()` breaks. */
  predicate IsSpace(c: char) {
    var n := c as int;
    (9 <= n <= 13) || (28 <= n <= 32) || n == 0x85 || n == 0xA0 || n == 0x1680
    || (0x2000 <= n <= 0x200A) || n == 0x2028 || n == 0x2029 || n == 0x202F
    || n == 0x205F || n == 0x3000
  }

  /** No character of `s` is white space. */
  predicate NoSpace(s: string) {
    forall k :: 0 <= k < |s| ==> !IsSpace(s[k])
  }

  /** Every character of `s` is white space. */
  predicate AllSpace(s: string) {
    forall k :: 0 <= k < |s| ==> IsSpace(s[k])
  }

  /** `xs[i]` in Python: `None` stands for the IndexError it raises. */
  function Nth(xs: seq<string>, i: nat): (r: Option<string>)
    ensures r.Some? <==> i < |xs|
    ensures r.Some? ==> r.value == xs[i]
  {
    if i < |xs| then Some(xs[i]) else None
  }

  // ---------------------------------------------------------------------
  // Searching

  /** `w` occurs in `s` starting at position `i`. */
  predicate OccursAt(s: string, w: string, i: nat) {
    i + |w| <= |s| && s[i..i + |w|] == w
  }

  /** Moving the start of `s` one character on shifts every occurrence by one. */
  lemma OccursShift(s: string, w: string, j: nat)
    requires |s| > 0
    ensures OccursAt(s, w, j + 1) <==> OccursAt(s[1..], w, j)
  {
    if j + 1 + |w| <= |s| {
      assert s[1..][j..j + |w|] == s[j + 1..j + 1 + |w|];
    }
  }

  /** An occurrence of a non-empty `w` starts with the first character of `w`. */
  lemma OccursHead(s: string, w: string, j: nat)
    requires |w| > 0
    ensures OccursAt(s, w, j) ==> j < |s| && s[j] == w[0]
  {
    if OccursAt(s, w, j) {
      assert s[j..j + |w|][0] == s[j];
    }
  }

  /** An occurrence inside a prefix of `s` is an occurrence in `s` that ends
      within the prefix. */
  lemma OccursPrefix(s: string, w: string, n: nat, j: nat)
    requires n <= |s|
    ensures OccursAt(s[..n], w, j) <==> OccursAt(s, w, j) && j + |w| <= n
  {
    if j + |w| <= n {
      assert s[..n][j..j + |w|] == s[j..j + |w|];
    }
  }

  /** `s.find(w)`: the first position at which `w` occurs, if any. */
  function IndexOf(s: string, w: string): (r: Option<nat>)
    ensures r.Some? ==> OccursAt(s, w, r.value)
    ensures r.Some? ==> forall j: nat :: j < r.value ==> !OccursAt(s, w, j)
    ensures r.None? ==> forall j: nat :: !OccursAt(s, w, j)
    decreases |s|
  {
    if |s| < |w| then None
    else if s[..|w|] == w then Some(0)
    else
      match IndexOf(s[1..], w)
      case None =>
        assert forall j: nat :: !OccursAt(s, w, j) by {
          forall j: nat ensures !OccursAt(s, w, j) {
            if j > 0 {
              OccursShift(s, w, j - 1);
            }
          }
        }
        None
      case Some(k) =>
        assert OccursAt(s, w, k + 1) by {
          OccursShift(s, w, k);
        }
        assert forall j: nat :: j < k + 1 ==> !OccursAt(s, w, j) by {
          forall j: nat | j < k + 1 ensures !OccursAt(s, w, j) {
            if j > 0 {
              OccursShift(s, w, j - 1);
            }
          }
        }
        Some(k + 1)
  }

  /** `w in s` for strings. */
  predicate Contains(s: string, w: string) {
    IndexOf(s, w).Some?
  }

  /** `s.startswith(p)`. */
  predicate StartsWith(s: string, p: string) {
    |p| <= |s| && s[..|p|] == p
  }

  /** An occurrence that has none before it is the one `find` reports. */
  lemma IndexOfFirst(s: string, w: string, i: nat)
    requires OccursAt(s, w, i)
    requires forall j: nat :: j < i ==> !OccursAt(s, w, j)
    ensures IndexOf(s, w) == Some(i)
  {
  }

  /** The text before the first `sep`: all of `s` when `sep` does not occur. */
  function Before(s: string, sep: string): (r: string)
    requires |sep| > 0
    ensures StartsWith(s, r)
    ensures Contains(s, sep) <==> |r| < |s|
    ensures Contains(s, sep) ==> OccursAt(s, sep, |r|) && forall j: nat :: j < |r| ==> !OccursAt(s, sep, j)
  {
    match IndexOf(s, sep)
    case None => s
    case Some(i) => s[..i]
  }

  /** The text after the first `sep`, if `sep` occurs. */
  function After(s: string, sep: string): (r: Option<string>)
    requires |sep| > 0
    ensures r.Some? <==> Contains(s, sep)
    ensures r.Some? ==> |sep| + |r.value| <= |s|
  {
    match IndexOf(s, sep)
    case None => None
    case Some(i) => Some(s[i + |sep|..])
  }

  /** The text between the first and the second `sep` (or the end of `s`). */
  function Between(s: string, sep: string): string
    requires |sep| > 0 && Contains(s, sep)
  {
    Before(After(s, sep).value, sep)
  }

  /** Occurrences in a slice are the occurrences in the whole string that lie
      inside the slice. */
  lemma OccursSlice(s: string, a: nat, b: nat, w: string, i: nat)
    requires a <= b <= |s|
    ensures OccursAt(s[a..b], w, i) <==> OccursAt(s, w, a + i) && a + i + |w| <= b
  {
    var t := s[a..b];
    if i + |w| <= |t| {
      var x, y := t[i..i + |w|], s[a + i..a + i + |w|];
      forall k | 0 <= k < |w| ensures x[k] == y[k] {
        assert t[i + k] == s[a + i + k];
      }
      assert x == y;
    }
  }

  // ---------------------------------------------------------------------
  // split(sep), sep.join, replace

  /** `s.split(sep)` with a non-empty separator: the pieces between the
      non-overlapping occurrences of `sep`, found from left to right. */
  function Split(s: string, sep: string): (r: seq<string>)
    requires |sep| > 0
    ensures |r| >= 1
    decreases |s|
  {
    match IndexOf(s, sep)
    case None => [s]
    case Some(i) => [s[..i]] + Split(s[i + |sep|..], sep)
  }

  /** `sep.join(ps)`. */
  function Join(ps: seq<string>, sep: string): string {
    if |ps| == 0 then ""
    else if |ps| == 1 then ps[0]
    else ps[0] + sep + Join(ps[1..], sep)
  }

  /** `s.replace(pat, rep)`: every non-overlapping occurrence of `pat`,
      found from left to right, becomes `rep`. */
  function Replace(s: string, pat: string, rep: string): string
    requires |pat| > 0
  {
    Join(Split(s, pat), rep)
  }

  /** Joining a piece in front of at least one other puts a separator after it. */
  lemma JoinCons(p: string, qs: seq<string>, sep: string)
    requires |qs| >= 1
    ensures Join([p] + qs, sep) == p + sep + Join(qs, sep)
  {
    assert ([p] + qs)[1..] == qs;
  }

  /** Joining the pieces of a split with the same separator gives the string back. */
  lemma {:induction false} JoinSplit(s: string, sep: string)
    requires |sep| > 0
    ensures Join(Split(s, sep), sep) == s
    decreases |s|
  {
    match IndexOf(s, sep)
    case None =>
      assert Split(s, sep) == [s];
    case Some(i) =>
      var rest := s[i + |sep|..];
      assert Split(s, sep) == [s[..i]] + Split(rest, sep);
      JoinSplit(rest, sep);
      JoinCons(s[..i], Split(rest, sep), sep);
      assert s[i..i + |sep|] == sep;
      ThreeSlices(s, i, i + |sep|);
  }

  /** Cutting a string at two positions and putting the pieces back together
      gives the string. */
  lemma ThreeSlices(s: string, i: nat, j: nat)
    requires i <= j <= |s|
    ensures s == s[..i] + s[i..j] + s[j..]
  {
  }

  /** No piece of a split contains the separator. */
  lemma {:induction false} SplitPiecesFree(s: string, sep: string)
    requires |sep| > 0
    ensures forall k :: 0 <= k < |Split(s, sep)| ==> !Contains(Split(s, sep)[k], sep)
    decreases |s|
  {
    match IndexOf(s, sep)
    case None =>
    case Some(i) =>
      var rest := s[i + |sep|..];
      SplitPiecesFree(rest, sep);
      assert Split(s, sep) == [s[..i]] + Split(rest, sep);
      var p := s[..i];
      forall j: nat ensures !OccursAt(p, sep, j) {
        OccursPrefix(s, sep, i, j);
      }
      ConsFree(p, Split(rest, sep), sep);
  }

  /** A piece free of `sep` put in front of pieces free of `sep`. */
  lemma ConsFree(p: string, ps: seq<string>, sep: string)
    requires forall j: nat :: !OccursAt(p, sep, j)
    requires forall k :: 0 <= k < |ps| ==> !Contains(ps[k], sep)
    ensures forall k :: 0 <= k < |[p] + ps| ==> !Contains(([p] + ps)[k], sep)
  {
    NotContains(p, sep);
    forall k | 0 < k < |[p] + ps| ensures ([p] + ps)[k] == ps[k - 1] {
    }
  }

  /** A split yields a single piece exactly when the separator is absent,
      and then that piece is the whole string. */
  lemma SplitSingle(s: string, sep: string)
    requires |sep| > 0
    ensures |Split(s, sep)| == 1 <==> !Contains(s, sep)
    ensures !Contains(s, sep) ==> Split(s, sep) == [s]
  {
  }

  /** The first two pieces of a split, described by the positions of `sep`:
      piece 0 is the text before its first occurrence, and piece 1 (present
      exactly when `sep` occurs) the text from there to the next one. */
  lemma SplitPieces(s: string, sep: string)
    requires |sep| > 0
    ensures Split(s, sep)[0] == Before(s, sep)
    ensures |Split(s, sep)| >= 2 <==> Contains(s, sep)
    ensures Contains(s, sep) ==> Split(s, sep)[1] == Before(After(s, sep).value, sep)
  {
    match IndexOf(s, sep)
    case None =>
    case Some(i) =>
      assert Split(s, sep) == [s[..i]] + Split(s[i + |sep|..], sep);
      SplitPieces(s[i + |sep|..], sep);
  }

  /** Splitting a join gives the pieces back when no piece holds the first
      character of the separator (so no occurrence can start inside one). */
  lemma {:induction false} SplitJoin(ps: seq<string>, sep: string)
    requires |sep| > 0 && |ps| >= 1
    requires forall k :: 0 <= k < |ps| ==> sep[0] !in ps[k]
    ensures Split(Join(ps, sep), sep) == ps
    decreases |ps|
  {
    var p := ps[0];
    forall j: nat ensures !OccursAt(p, sep, j) {
      OccursHead(p, sep, j);
    }
    if |ps| == 1 {
      assert IndexOf(p, sep).None?;
    } else {
      var s := Join(ps, sep);
      var rest := Join(ps[1..], sep);
      assert s == p + sep + rest;
      assert OccursAt(s, sep, |p|) by {
        assert s[|p|..|p| + |sep|] == sep;
      }
      forall j: nat | j < |p| ensures !OccursAt(s, sep, j) {
        OccursHead(s, sep, j);
      }
      IndexOfFirst(s, sep, |p|);
      assert s[..|p|] == p;
      assert s[|p| + |sep|..] == rest;
      SplitJoin(ps[1..], sep);
    }
  }

  /** The characters of `s` with every `a` turned into `b`. */
  function MapChar(s: string, a: char, b: char): (r: string)
    ensures |r| == |s|
  {
    seq(|s|, k requires 0 <= k < |s| => if s[k] == a then b else s[k])
  }

  /** `MapChar` works character by character, so it distributes over `+`. */
  lemma MapCharAppend(x: string, y: string, a: char, b: char)
    ensures MapChar(x + y, a, b) == MapChar(x, a, b) + MapChar(y, a, b)
  {
    var l, r := MapChar(x + y, a, b), MapChar(x, a, b) + MapChar(y, a, b);
    forall k | 0 <= k < |l| ensures l[k] == r[k] {
      if k < |x| {
        assert (x + y)[k] == x[k];
      } else {
        assert (x + y)[k] == y[k - |x|];
      }
    }
  }

  /** Mapping a character that does not occur changes nothing. */
  lemma MapCharAbsent(s: string, a: char, b: char)
    requires a !in s
    ensures MapChar(s, a, b) == s
  {
  }

  /** A one-character pattern occurs exactly where that character stands. */
  lemma OccursChar(s: string, a: char, j: nat)
    ensures OccursAt(s, [a], j) <==> j < |s| && s[j] == a
  {
    if j < |s| {
      assert s[j..j + 1] == [s[j]];
    }
  }

  /** Replacing a one-character string by another changes that character
      wherever it stands and nothing else. */
  lemma {:induction false} ReplaceChar(s: string, a: char, b: char)
    ensures Replace(s, [a], [b]) == MapChar(s, a, b)
    decreases |s|
  {
    var sep := [a];
    match IndexOf(s, sep)
    case None =>
      forall k | 0 <= k < |s| ensures s[k] != a {
        OccursChar(s, a, k);
      }
      assert Split(s, sep) == [s];
      assert MapChar(s, a, b) == s;
    case Some(i) =>
      OccursChar(s, a, i);
      forall k | 0 <= k < i ensures s[k] != a {
        OccursChar(s, a, k);
      }
      var rest := s[i + 1..];
      ReplaceChar(rest, a, b);
      var tail := Split(rest, sep);
      assert Split(s, sep) == [s[..i]] + tail;
      assert Replace(s, sep, [b]) == s[..i] + [b] + Join(tail, [b]) by {
        assert ([s[..i]] + tail)[1..] == tail;
      }
      assert MapChar(s, a, b) == s[..i] + [b] + MapChar(rest, a, b);
  }

  /** After `replace("'", '"')` no single quote is left. */
  lemma ReplaceQuoteLeavesNone(s: string)
    ensures '\'' !in Replace(s, "'", "\"")
  {
    ReplaceChar(s, '\'', '"');
  }

  /** Doubling every `=` loses nothing: halving every `==` undoes it. */
  lemma DoubleEqualsRoundTrip(s: string)
    ensures Replace(Replace(s, "=", "=="), "==", "=") == s
  {
    var ps := Split(s, "=");
    SplitPiecesFree(s, "=");
    forall k | 0 <= k < |ps| ensures '=' !in ps[k] {
      forall j | 0 <= j < |ps[k]| ensures ps[k][j] != '=' {
        OccursChar(ps[k], '=', j);
      }
    }
    SplitJoin(ps, "==");
    JoinSplit(s, "=");
  }

  /** An occurrence anywhere means `find` succeeds. */
  lemma ContainsAt(s: string, w: string, i: nat)
    requires OccursAt(s, w, i)
    ensures Contains(s, w)
  {
  }

  /** Every character of a piece of `split(sep)` is a character of `s`. */
  lemma {:induction false} SplitPiecesIn(s: string, sep: string)
    requires |sep| > 0
    ensures forall k, c :: 0 <= k < |Split(s, sep)| && c in Split(s, sep)[k] ==> c in s
    decreases |s|
  {
    match IndexOf(s, sep)
    case None =>
      assert Split(s, sep) == [s];
    case Some(i) =>
      var rest := s[i + |sep|..];
      SplitPiecesIn(rest, sep);
      assert Split(s, sep) == [s[..i]] + Split(rest, sep);
      forall k, c | 0 <= k < |Split(s, sep)| && c in Split(s, sep)[k] ensures c in s {
        if k == 0 {
          var j :| 0 <= j < i && s[..i][j] == c;
          assert s[j] == c;
        } else {
          assert c in rest;
          var j :| 0 <= j < |rest| && rest[j] == c;
          assert s[i + |sep| + j] == c;
        }
      }
  }

  /** Every character of `sep.join(ps)` comes from `sep` or from one of the pieces. */
  lemma {:induction false} JoinChars(ps: seq<string>, sep: string, c: char)
    requires c in Join(ps, sep)
    ensures c in sep || exists k :: 0 <= k < |ps| && c in ps[k]
    decreases |ps|
  {
    if |ps| == 1 {
      assert c in ps[0];
    } else if |ps| >= 2 {
      var tail := Join(ps[1..], sep);
      assert Join(ps, sep) == ps[0] + sep + tail;
      if c in tail {
        JoinChars(ps[1..], sep, c);
        if c !in sep {
          var k :| 0 <= k < |ps[1..]| && c in ps[1..][k];
          assert c in ps[k + 1];
        }
      } else if c !in sep {
        assert c in ps[0];
      }
    }
  }

  /** `replace` brings in no character that is neither in `s` nor in the replacement. */
  lemma ReplaceChars(s: string, pat: string, rep: string)
    requires |pat| > 0
    ensures forall c :: c in Replace(s, pat, rep) ==> c in s || c in rep
  {
    SplitPiecesIn(s, pat);
    forall c | c in Replace(s, pat, rep) ensures c in s || c in rep {
      JoinChars(Split(s, pat), rep, c);
    }
  }

  /** `find` fails when `w` occurs nowhere. */
  lemma NotContains(s: string, w: string)
    requires forall j: nat :: !OccursAt(s, w, j)
    ensures !Contains(s, w)
  {
  }

  /** Replacing the only occurrence of a character. */
  lemma ReplaceOnce(a: string, c: char, b: string, rep: string)
    requires c !in a && c !in b
    ensures Replace(a + [c] + b, [c], rep) == a + rep + b
  {
    var s := a + [c] + b;
    forall j: nat | j < |a| ensures !OccursAt(s, [c], j) {
      OccursChar(s, c, j);
      assert s[j] == a[j];
    }
    OccursChar(s, c, |a|);
    IndexOfFirst(s, [c], |a|);
    assert s[..|a|] == a && s[|a| + 1..] == b;
    forall j: nat ensures !OccursAt(b, [c], j) {
      OccursChar(b, c, j);
    }
    NotContains(b, [c]);
    SplitSingle(b, [c]);
    assert Split(s, [c]) == [s[..|a|]] + Split(s[|a| + 1..], [c]);
    assert Split(s, [c]) == [a, b];
    assert [a, b][1..] == [b];
    assert Join([a, b], rep) == a + rep + b;
    assert Replace(s, [c], rep) == Join([a, b], rep);
  }

  /** Mapping `a` to `b` is undone by mapping `b` back to `a` when `s` had no `b`. */
  lemma MapCharInverse(s: string, a: char, b: char)
    requires b !in s
    ensures MapChar(MapChar(s, a, b), b, a) == s
  {
  }

  // ---------------------------------------------------------------------
  // strip() and split()

  /** `s.lstrip()`: drops leading white space. */
  function TrimStart(s: string): (r: string)
    ensures |r| <= |s| && r == s[|s| - |r|..]
    ensures forall k :: 0 <= k < |s| - |r| ==> IsSpace(s[k])
    ensures |r| > 0 ==> !IsSpace(r[0])
    decreases |s|
  {
    if |s| > 0 && IsSpace(s[0]) then TrimStart(s[1..]) else s
  }

  /** `s.rstrip()`: drops trailing white space. */
  function TrimEnd(s: string): (r: string)
    ensures |r| <= |s| && r == s[..|r|]
    ensures forall k :: |r| <= k < |s| ==> IsSpace(s[k])
    ensures |r| > 0 ==> !IsSpace(r[|r| - 1])
    decreases |s|
  {
    if |s| > 0 && IsSpace(s[|s| - 1]) then TrimEnd(s[..|s| - 1]) else s
  }

  /** `s.strip()`. */
  function Strip(s: string): string {
    TrimEnd(TrimStart(s))
  }

  /** What `strip()` keeps is a contiguous part of `s` that neither starts nor
      ends with white space, and everything it drops on either side is white space. */
  lemma StripShape(s: string)
    ensures var r := Strip(s);
      exists a: nat, b: nat :: a <= b <= |s| && r == s[a..b]
        && (forall k :: 0 <= k < a ==> IsSpace(s[k]))
        && (forall k :: b <= k < |s| ==> IsSpace(s[k]))
        && (|r| > 0 ==> !IsSpace(r[0]) && !IsSpace(r[|r| - 1]))
  {
    var a, b := StripSlice(s);
  }

  /** A string that neither starts nor ends with white space is its own strip. */
  lemma StripNoEdges(s: string)
    requires |s| > 0 ==> !IsSpace(s[0]) && !IsSpace(s[|s| - 1])
    ensures Strip(s) == s
  {
  }

  /** Length of the leading run of characters that are not white space. */
  function SpanNonSpace(s: string): (n: nat)
    ensures n <= |s| && forall k :: 0 <= k < n ==> !IsSpace(s[k])
    ensures n < |s| ==> IsSpace(s[n])
    decreases |s|
  {
    if |s| == 0 || IsSpace(s[0]) then 0 else 1 + SpanNonSpace(s[1..])
  }

  /** `s.split()`: the maximal runs of non-white-space characters, in order. */
  function SplitWs(s: string): (r: seq<string>)
    ensures forall k :: 0 <= k < |r| ==> |r[k]| > 0 && NoSpace(r[k])
    decreases |s|
  {
    var t := TrimStart(s);
    if |t| == 0 then []
    else
      var n := SpanNonSpace(t);
      LeadingRun(t, n);
      var rest := SplitWs(t[n..]);
      ConsToken(t[..n], rest);
      [t[..n]] + rest
  }

  /** A token put in front of tokens gives tokens. */
  lemma ConsToken(w: string, rest: seq<string>)
    requires |w| > 0 && NoSpace(w)
    requires forall k :: 0 <= k < |rest| ==> |rest[k]| > 0 && NoSpace(rest[k])
    ensures forall k :: 0 <= k < |[w] + rest| ==> |([w] + rest)[k]| > 0 && NoSpace(([w] + rest)[k])
  {
    forall k | 0 < k < |[w] + rest| ensures ([w] + rest)[k] == rest[k - 1] {
    }
  }

  /** A run of non-white-space characters that starts a string not starting
      with white space, and stops only at white space, is a non-empty token. */
  lemma LeadingRun(t: string, n: nat)
    requires |t| > 0 && !IsSpace(t[0])
    requires n <= |t| && forall k :: 0 <= k < n ==> !IsSpace(t[k])
    requires n < |t| ==> IsSpace(t[n])
    ensures |t[..n]| > 0 && NoSpace(t[..n])
  {
    forall k | 0 <= k < n ensures !IsSpace(t[..n][k]) {
      assert t[..n][k] == t[k];
    }
  }

  /** `split()` finds nothing exactly in a string that is all white space. */
  lemma SplitWsEmpty(s: string)
    ensures |SplitWs(s)| == 0 <==> AllSpace(s)
  {
    var t := TrimStart(s);
    if |t| > 0 {
      assert s[|s| - |t|] == t[0];
    } else {
      assert s[..|s|] == s;
    }
  }

  /** `tok` stands in `s` at position `a` after nothing but white space, and
      white space or the end of `s` follows it. */
  predicate FirstTokenAt(s: string, tok: string, a: nat) {
    a + |tok| <= |s| && (forall k :: 0 <= k < a ==> IsSpace(s[k])) && s[a..a + |tok|] == tok
    && (a + |tok| < |s| ==> IsSpace(s[a + |tok|]))
  }

  /** `split()` starts with the run of non-white-space characters that
      follows the leading white space. */
  lemma SplitWsHead(s: string)
    requires |SplitWs(s)| > 0
    ensures |TrimStart(s)| > 0
    ensures SplitWs(s)[0] == TrimStart(s)[..SpanNonSpace(TrimStart(s))]
  {
  }

  /** A run that ends at white space or at the end of the rest `t` of `s`,
      after nothing but white space, is a first token. */
  lemma RunIsFirst(s: string, t: string, n: nat)
    requires |t| <= |s| && t == s[|s| - |t|..]
    requires forall k :: 0 <= k < |s| - |t| ==> IsSpace(s[k])
    requires n <= |t| && (n < |t| ==> IsSpace(t[n]))
    ensures FirstTokenAt(s, t[..n], |s| - |t|)
  {
    var a := |s| - |t|;
    assert s[a..a + n] == t[..n] by {
      assert s[a..][..n] == s[a..a + n];
    }
    if n < |t| {
      assert s[a + n] == t[n];
    }
  }

  /** The run after the leading white space is a first token. */
  lemma TrimmedRunIsFirst(s: string)
    requires |TrimStart(s)| > 0
    ensures FirstTokenAt(s, TrimStart(s)[..SpanNonSpace(TrimStart(s))], |s| - |TrimStart(s)|)
  {
    RunIsFirst(s, TrimStart(s), SpanNonSpace(TrimStart(s)));
  }

  /** The first token of `split()`: after some white space, the token is the
      longest following run free of white space. */
  lemma SplitWsFirst(s: string)
    requires |SplitWs(s)| > 0
    ensures exists a: nat :: FirstTokenAt(s, SplitWs(s)[0], a)
  {
    SplitWsHead(s);
    TrimmedRunIsFirst(s);
  }

  /** `strip(s)` is the slice `s[a..b]`, outside which there is only white space. */
  lemma StripSlice(s: string) returns (a: nat, b: nat)
    ensures a <= b <= |s| && Strip(s) == s[a..b]
    ensures forall k :: 0 <= k < a ==> IsSpace(s[k])
    ensures forall k :: b <= k < |s| ==> IsSpace(s[k])
    ensures |Strip(s)| > 0 ==> !IsSpace(Strip(s)[0]) && !IsSpace(Strip(s)[|Strip(s)| - 1])
  {
    a, b := TrimmedSlice(s, TrimStart(s), Strip(s));
  }

  /** The slice left by trimming `s` to `t` at the front and `t` to `r` at the back. */
  lemma TrimmedSlice(s: string, t: string, r: string) returns (a: nat, b: nat)
    requires |t| <= |s| && t == s[|s| - |t|..]
    requires forall k :: 0 <= k < |s| - |t| ==> IsSpace(s[k])
    requires |t| > 0 ==> !IsSpace(t[0])
    requires |r| <= |t| && r == t[..|r|]
    requires forall k :: |r| <= k < |t| ==> IsSpace(t[k])
    requires |r| > 0 ==> !IsSpace(r[|r| - 1])
    ensures a <= b <= |s| && r == s[a..b]
    ensures forall k :: 0 <= k < a ==> IsSpace(s[k])
    ensures forall k :: b <= k < |s| ==> IsSpace(s[k])
    ensures |r| > 0 ==> !IsSpace(r[0]) && !IsSpace(r[|r| - 1])
  {
    a := |s| - |t|;
    b := a + |r|;
    assert r == s[a..b] by {
      assert s[a..][..|r|] == s[a..b];
    }
    if |r| > 0 {
      assert r[0] == t[0];
    }
    forall k | b <= k < |s| ensures IsSpace(s[k]) {
      assert t[k - a] == s[k];
    }
  }

  /** An occurrence in `strip(s)` is an occurrence in `s`. */
  lemma ContainsStripped(s: string, w: string)
    requires Contains(Strip(s), w)
    ensures Contains(s, w)
  {
    var a, b := StripSlice(s);
    var i := IndexOf(s[a..b], w).value;
    OccursSlice(s, a, b, w, i);
  }

  /** An occurrence in `s` of a word free of white space survives `strip()`. */
  lemma ContainsUnstripped(s: string, w: string)
    requires |w| > 0 && NoSpace(w) && Contains(s, w)
    ensures Contains(Strip(s), w)
  {
    var i := IndexOf(s, w).value;
    var j := i + |w| - 1;
    assert s[i] == w[0] && s[j] == w[|w| - 1] by {
      assert s[i..i + |w|] == w;
    }
    var a, b := StripSlice(s);
    assert a <= i && j < b;
    OccursSlice(s, a, b, w, i - a);
    ContainsAt(s[a..b], w, i - a);
  }

  /** A word free of white space occurs in `strip(s)` exactly when it occurs in `s`. */
  lemma ContainsStrip(s: string, w: string)
    requires |w| > 0 && NoSpace(w)
    ensures Contains(Strip(s), w) <==> Contains(s, w)
  {
    if Contains(Strip(s), w) {
      ContainsStripped(s, w);
    }
    if Contains(s, w) {
      ContainsUnstripped(s, w);
    }
  }

  /** A word that holds neither `a` nor `b` is found in `MapChar(s, a, b)` at
      exactly the places it is found in `s`. */
  lemma OccursMapChar(s: string, a: char, b: char, w: string, i: nat)
    requires a !in w && b !in w
    ensures OccursAt(MapChar(s, a, b), w, i) <==> OccursAt(s, w, i)
  {
    var m := MapChar(s, a, b);
    if i + |w| <= |s| {
      var x := s[i..i + |w|];
      var y := m[i..i + |w|];
      if x == w {
        forall k | 0 <= k < |w| ensures y[k] == w[k] {
          assert x[k] == s[i + k] && y[k] == m[i + k];
        }
        assert y == w;
      }
      if y == w {
        forall k | 0 <= k < |w| ensures x[k] == w[k] {
          assert x[k] == s[i + k] && y[k] == m[i + k];
        }
        assert x == w;
      }
    }
  }

  /** Hence such a word occurs in `MapChar(s, a, b)` exactly when it occurs in `s`. */
  lemma ContainsMapChar(s: string, a: char, b: char, w: string)
    requires a !in w && b !in w
    ensures Contains(MapChar(s, a, b), w) <==> Contains(s, w)
  {
    var m := MapChar(s, a, b);
    if Contains(m, w) {
      OccursMapChar(s, a, b, w, IndexOf(m, w).value);
    }
    if Contains(s, w) {
      OccursMapChar(s, a, b, w, IndexOf(s, w).value);
    }
  }

  /** A token free of white space is left alone by `strip()`. */
  lemma StripToken(s: string)
    requires NoSpace(s)
    ensures Strip(s) == s
  {
    StripNoEdges(s);
  }

  // ---------------------------------------------------------------------
  // upper()

  /** Upper-case mapping of one character (ASCII letters only). */
  function UpperChar(c: char): char {
    if 'a' <= c <= 'z' then (c as int - 32) as char else c
  }

  /** `s.upper()`. */
  function Upper(s: string): (r: string)
    ensures |r| == |s|
  {
    seq(|s|, k requires 0 <= k < |s| => UpperChar(s[k]))
  }

  /** `upper()` leaves no lower-case ASCII letter and changes nothing else. */
  lemma UpperShape(s: string)
    ensures forall k :: 0 <= k < |s| ==> !('a' <= Upper(s)[k] <= 'z')
    ensures forall k :: 0 <= k < |s| && !('a' <= s[k] <= 'z') ==> Upper(s)[k] == s[k]
    ensures forall k :: 0 <= k < |s| && 'a' <= s[k] <= 'z' ==>
      'A' <= Upper(s)[k] <= 'Z' && Upper(s)[k] as int - 'A' as int == s[k] as int - 'a' as int
  {
  }
}
