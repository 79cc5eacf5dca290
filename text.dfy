/** The parts of Rust's string library that the configuration parser relies on:
    `char::is_whitespace`, `str::trim`, `str::lines` and `str::splitn(2, ':')`,
    written as functions on `string` (a sequence of Unicode scalar values).
    Each function is followed by the lemma that states what it computes. */
module Text {

  datatype Option<+T> = None | Some(value: T)

  /** Unicode White_Space, the property behind Rust's `char::is_whitespace`. */
  predicate IsWhitespace(c: char) {
    || ('\t' <= c <= '\r')  // tab, line feed, vertical tab, form feed, carriage return
    || c == ' '
    || c == '\U{0085}'
    || c == '\U{00A0}'
    || c == '\U{1680}'
    || ('\U{2000}' <= c <= '\U{200A}')
    || c == '\U{2028}'
    || c == '\U{2029}'
    || c == '\U{202F}'
    || c == '\U{205F}'
    || c == '\U{3000}'
  }

  /** Neither the first nor the last character of `s` is whitespace. */
  predicate IsTrimmed(s: string) {
    s == [] || (!IsWhitespace(s[0]) && !IsWhitespace(s[|s| - 1]))
  }

  /** Every character of `s` is whitespace. */
  predicate AllWhitespace(s: string) {
    forall i :: 0 <= i < |s| ==> IsWhitespace(s[i])
  }

  // ---------------------------------------------------------------------------
  // trim

  /** Rust's `trim_start`: drops the whitespace at the front. */
  function TrimStart(s: string): (r: string)
    ensures |r| <= |s|
  {
    if s != [] && IsWhitespace(s[0]) then TrimStart(s[1..]) else s
  }

  /** `TrimStart` drops the longest all-whitespace prefix. */
  lemma {:induction false} TrimStartSpec(s: string)
    ensures var r := TrimStart(s);
      && r == s[|s| - |r|..]
      && AllWhitespace(s[..|s| - |r|])
      && (r == [] || !IsWhitespace(r[0]))
  {
    if s != [] && IsWhitespace(s[0]) {
      TrimStartSpec(s[1..]);
      var r := TrimStart(s[1..]);
      assert s[1..][..|s[1..]| - |r|] == s[1..|s| - |r|];
    }
  }

  /** Rust's `trim_end`: drops the whitespace at the back. */
  function TrimEnd(s: string): (r: string)
    ensures |r| <= |s|
  {
    if s != [] && IsWhitespace(s[|s| - 1]) then TrimEnd(s[..|s| - 1]) else s
  }

  /** `TrimEnd` drops the longest all-whitespace suffix. */
  lemma {:induction false} TrimEndSpec(s: string)
    ensures var r := TrimEnd(s);
      && r == s[..|r|]
      && AllWhitespace(s[|r|..])
      && (r == [] || !IsWhitespace(r[|r| - 1]))
  {
    if s != [] && IsWhitespace(s[|s| - 1]) {
      TrimEndSpec(s[..|s| - 1]);
      var r := TrimEnd(s[..|s| - 1]);
      assert s[..|s| - 1][|r|..] == s[|r|..|s| - 1];
    }
  }

  /** Rust's `trim`: whitespace dropped at both ends. */
  function Trim(s: string): (r: string)
    ensures |r| <= |s|
  {
    TrimEnd(TrimStart(s))
  }

  /** `Trim` yields the infix of `s` left between an all-whitespace prefix and
      an all-whitespace suffix, and that infix is trimmed. */
  lemma TrimSpec(s: string)
    ensures IsTrimmed(Trim(s))
    ensures exists i, j :: 0 <= i <= j <= |s| && Trim(s) == s[i..j] && AllWhitespace(s[..i]) && AllWhitespace(s[j..])
  {
    var t := TrimStart(s);
    var r := TrimEnd(t);
    TrimStartSpec(s);
    TrimEndSpec(t);
    var i := |s| - |t|;
    var j := i + |r|;
    assert r == s[i..j];
    assert s[j..] == t[|r|..];
  }

  /** Trimming changes exactly the strings that start or end with whitespace. */
  lemma {:induction false} TrimIdentity(s: string)
    ensures Trim(s) == s <==> IsTrimmed(s)
  {
    TrimSpec(s);
    if IsTrimmed(s) {
      assert [] + s + [] == s;
      TrimOf([], s, []);
    }
  }

  /** Whitespace in front of a string that does not start with whitespace is
      what `TrimStart` removes. */
  lemma {:induction false} TrimStartOf(w: string, s: string)
    requires AllWhitespace(w) && (s == [] || !IsWhitespace(s[0]))
    ensures TrimStart(w + s) == s
  {
    if w == [] {
      assert w + s == s;
    } else {
      assert (w + s)[1..] == w[1..] + s;
      TrimStartOf(w[1..], s);
    }
  }

  /** Whitespace behind a string that does not end with whitespace is what
      `TrimEnd` removes. */
  lemma {:induction false} TrimEndOf(s: string, w: string)
    requires AllWhitespace(w) && (s == [] || !IsWhitespace(s[|s| - 1]))
    ensures TrimEnd(s + w) == s
  {
    if w == [] {
      assert s + w == s;
    } else {
      assert (s + w)[..|s + w| - 1] == s + w[..|w| - 1];
      TrimEndOf(s, w[..|w| - 1]);
    }
  }

  /** A trimmed string between whitespace is what `Trim` leaves: together with
      `TrimSpec` this pins `Trim` down completely. */
  lemma TrimOf(w1: string, s: string, w2: string)
    requires AllWhitespace(w1) && IsTrimmed(s) && AllWhitespace(w2)
    ensures Trim(w1 + s + w2) == s
  {
    if s == [] {
      assert w1 + s + w2 == (w1 + w2) + [];
      TrimStartOf(w1 + w2, []);
    } else {
      assert w1 + s + w2 == w1 + (s + w2);
      TrimStartOf(w1, s + w2);
      TrimEndOf(s, w2);
    }
  }

  /** A character missing from a string is missing from its trimmed form. */
  lemma TrimKeeps(s: string, c: char)
    requires c !in s
    ensures c !in Trim(s)
  {
    TrimSpec(s);
    var i, j :| 0 <= i <= j <= |s| && Trim(s) == s[i..j];
  }

  // ---------------------------------------------------------------------------
  // splitn(2, sep)

  /** Rust's `splitn(2, sep)` seen through `if let (Some(key), Some(value))`:
      the text before the first separator and everything after it, or `None`
      when the string holds no separator. */
  function SplitOnce(s: string, sep: char): (r: Option<(string, string)>)
    ensures r.Some? ==> |r.value.0| + |r.value.1| < |s|
  {
    if s == [] then None
    else if s[0] == sep then Some(([], s[1..]))
    else
      match SplitOnce(s[1..], sep)
      case None => None
      case Some((key, value)) => Some(([s[0]] + key, value))
  }

  /** `SplitOnce` fails exactly when there is no separator, and otherwise cuts
      the string at its first separator. */
  lemma {:induction false} SplitOnceSpec(s: string, sep: char)
    ensures SplitOnce(s, sep).None? <==> sep !in s
    ensures SplitOnce(s, sep).Some? ==>
      var (key, value) := SplitOnce(s, sep).value;
      s == key + [sep] + value && sep !in key
  {
    if s != [] && s[0] != sep {
      SplitOnceSpec(s[1..], sep);
      assert s == [s[0]] + s[1..];
    }
  }

  /** The split is unique: a separator-free prefix followed by the separator is
      what `SplitOnce` finds, however many separators the remainder holds. */
  lemma {:induction false} SplitOnceAt(key: string, sep: char, value: string)
    requires sep !in key
    ensures SplitOnce(key + [sep] + value, sep) == Some((key, value))
  {
    if key == [] {
      assert key + [sep] + value == [sep] + value;
    } else {
      SplitOnceAt(key[1..], sep, value);
      assert (key + [sep] + value)[1..] == key[1..] + [sep] + value;
      assert [key[0]] + key[1..] == key;
    }
  }

  // ---------------------------------------------------------------------------
  // lines

  /** The line ending of a line Rust's `lines` yields: a `'\r'` right before the
      `'\n'` is dropped with it. */
  function StripCr(l: string): string
  {
    if l != [] && l[|l| - 1] == '\r' then l[..|l| - 1] else l
  }

  /** Rust's `str::lines`: split after each `'\n'`, drop the `"\n"` or `"\r\n"`
      that ends a line; a final line ending yields no extra empty line. */
  function Lines(s: string): seq<string>
    decreases |s|
  {
    if s == [] then []
    else
      match SplitOnce(s, '\n')
      case None => [s]
      case Some((line, rest)) => [StripCr(line)] + Lines(rest)
  }

  /** No line holds a line break. */
  lemma {:induction false} LinesHaveNoBreak(s: string)
    ensures forall k :: 0 <= k < |Lines(s)| ==> '\n' !in Lines(s)[k]
    decreases |s|
  {
    if s != [] {
      SplitOnceSpec(s, '\n');
      match SplitOnce(s, '\n')
      case None =>
      case Some((line, rest)) =>
        LinesHaveNoBreak(rest);
        assert '\n' !in StripCr(line) by {
          assert StripCr(line) == line || StripCr(line) == line[..|line| - 1];
        }
    }
  }

  /** A string without a line break is one line; the empty string is none. */
  lemma SingleLine(l: string)
    requires '\n' !in l
    ensures Lines(l) == if l == [] then [] else [l]
  {
    SplitOnceSpec(l, '\n');
  }

  /** A line break ends the line before it, and the rest is split on its own. */
  lemma FirstLine(l: string, rest: string)
    requires '\n' !in l
    ensures Lines(l + "\n" + rest) == [StripCr(l)] + Lines(rest)
  {
    SplitOnceAt(l, '\n', rest);
  }

  /** A line break appended to a text that does not end in `'\r'` ends its last
      line, adding no line, unless the text is empty or already ends in a line
      break, when it adds one empty line. */
  lemma {:induction false} LinesAppendBreak(s: string)
    requires s == [] || s[|s| - 1] != '\r'
    ensures Lines(s + "\n") == if s == [] || s[|s| - 1] == '\n' then Lines(s) + [""] else Lines(s)
    decreases |s|
  {
    SplitOnceSpec(s, '\n');
    match SplitOnce(s, '\n')
    case None =>
      FirstLine(s, "");
      assert s + "\n" + "" == s + "\n";
      SingleLine(s);
    case Some((l, s')) =>
      assert s + "\n" == l + "\n" + (s' + "\n");
      FirstLine(l, s' + "\n");
      FirstLine(l, s');
      LinesAppendBreak(s');
  }

  /** Lines of a text split after a line break are the lines of both parts. */
  lemma {:induction false} LinesConcat(a: string, b: string)
    ensures Lines(a + "\n" + b) == Lines(a + "\n") + Lines(b)
    decreases |a|
  {
    SplitOnceSpec(a, '\n');
    match SplitOnce(a, '\n')
    case None =>
      FirstLine(a, b);
      FirstLine(a, "");
      assert a + "\n" + "" == a + "\n";
    case Some((l, a')) =>
      var x, y := a' + "\n" + b, a' + "\n";
      assert a + "\n" + b == l + "\n" + x;
      assert a + "\n" == l + "\n" + y;
      FirstLine(l, x);
      FirstLine(l, y);
      LinesConcat(a', b);
  }
}
