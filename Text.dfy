/**
 * The string operations the loader applies to raw cells: whitespace stripping,
 * replace-all substitution (used for decimal commas, month names and the
 * output file name), the "localised month followed by a two-digit year" test,
 * and the translation of Spanish month abbreviations to English ones.
 */
module Text {

  /** Characters Python treats as whitespace (str.isspace, and \s in a str pattern). */
  predicate IsSpace(c: char) {
    ('\U{9}' <= c <= '\U{D}') || ('\U{1C}' <= c <= '\U{20}') || c == '\U{85}' || c == '\U{A0}' ||
    c == '\U{1680}' || ('\U{2000}' <= c <= '\U{200A}') || c == '\U{2028}' || c == '\U{2029}' ||
    c == '\U{202F}' || c == '\U{205F}' || c == '\U{3000}'
  }

  predicate AllSpace(s: string) {
    forall i :: 0 <= i < |s| ==> IsSpace(s[i])
  }

  predicate IsDigit(c: char) {
    '0' <= c <= '9'
  }

  /** Lower-case ASCII letters: the alphabet of the localised month abbreviations. */
  predicate KeyChar(c: char) {
    'a' <= c <= 'z'
  }

  predicate NoKeyChar(s: string) {
    forall i :: 0 <= i < |s| ==> !KeyChar(s[i])
  }

  predicate AllKeyChar(s: string) {
    forall i :: 0 <= i < |s| ==> KeyChar(s[i])
  }

  // ---------------------------------------------------------------------------
  // Stripping

  /** Number of whitespace characters at the start of `s`. */
  function LeadingSpaces(s: string): (n: nat)
    ensures n <= |s|
    ensures AllSpace(s[..n])
    ensures n < |s| ==> !IsSpace(s[n])
  {
    if s == [] || !IsSpace(s[0]) then 0
    else
      var n := 1 + LeadingSpaces(s[1..]);
      assert s[..n] == [s[0]] + s[1..][..n - 1];
      n
  }

  /** Number of whitespace characters at the end of `s`. */
  function TrailingSpaces(s: string): (n: nat)
    ensures n <= |s|
    ensures AllSpace(s[|s| - n..])
    ensures n < |s| ==> !IsSpace(s[|s| - n - 1])
  {
    if s == [] || !IsSpace(s[|s| - 1]) then 0
    else
      var init := s[..|s| - 1];
      var n := 1 + TrailingSpaces(init);
      assert s[|s| - n..] == init[|init| - (n - 1)..] + [s[|s| - 1]];
      n
  }

  /** str.strip(): `s` without its leading and trailing whitespace. */
  function Strip(s: string): (r: string)
    ensures exists a, b :: 0 <= a <= b <= |s| && r == s[a..b] && AllSpace(s[..a]) && AllSpace(s[b..])
    ensures r == [] || (!IsSpace(r[0]) && !IsSpace(r[|r| - 1]))
  {
    var a := LeadingSpaces(s);
    var t := s[a..];
    var b := a + (|t| - TrailingSpaces(t));
    assert t[..|t| - TrailingSpaces(t)] == s[a..b];
    assert t[|t| - TrailingSpaces(t)..] == s[b..];
    s[a..b]
  }

  // ---------------------------------------------------------------------------
  // Replace-all

  /**
   * Every non-overlapping occurrence of `k`, scanned from the left, replaced
   * by `v`: the semantics of str.replace and of re.sub with a literal pattern.
   */
  function ReplaceAll(s: string, k: string, v: string): string
    requires |k| > 0
    decreases |s|
  {
    if |s| < |k| then s
    else if s[..|k|] == k then v + ReplaceAll(s[|k|..], k, v)
    else [s[0]] + ReplaceAll(s[1..], k, v)
  }

  /** Replacing one character by one character is a per-character map. */
  lemma {:induction false} ReplaceCharAt(s: string, k: string, v: string)
    requires |k| == 1 && |v| == 1
    ensures |ReplaceAll(s, k, v)| == |s|
    ensures forall i :: 0 <= i < |s| ==>
      ReplaceAll(s, k, v)[i] == if s[i] == k[0] then v[0] else s[i]
  {
    if |s| > 0 {
      ReplaceCharAt(s[1..], k, v);
      if s[..1] == k {
        assert s[0] == k[0];
      } else {
        assert s[0] != k[0] by { assert s[..1] == [s[0]]; assert k == [k[0]]; }
      }
    }
  }

  /** A prefix free of the key's first character passes through unchanged. */
  lemma {:induction false} ReplacePrefix(w: string, x: string, k: string, v: string)
    requires |k| > 0
    requires forall i :: 0 <= i < |w| ==> w[i] != k[0]
    ensures ReplaceAll(w + x, k, v) == w + ReplaceAll(x, k, v)
    decreases |w|
  {
    var s := w + x;
    if w == [] {
      assert s == x;
    } else if |s| < |k| {
      assert ReplaceAll(x, k, v) == x;
    } else {
      assert s[0] == w[0];
      ReplaceSkip(s, k, v);
      assert s[1..] == w[1..] + x;
      ReplacePrefix(w[1..], x, k, v);
      assert [w[0]] + (w[1..] + ReplaceAll(x, k, v)) == w + ReplaceAll(x, k, v);
    }
  }

  /** A text that does not start with the key's first character keeps that character. */
  lemma ReplaceSkip(s: string, k: string, v: string)
    requires 0 < |k| <= |s| && s[0] != k[0]
    ensures ReplaceAll(s, k, v) == [s[0]] + ReplaceAll(s[1..], k, v)
  {
    assert s[..|k|][0] == s[0];
  }

  /**
   * A piece shorter than the key, followed by text that shares no character
   * with the key, contains no occurrence of the key.
   */
  lemma {:induction false} ReplaceShort(t: string, r: string, k: string, v: string)
    requires 0 < |k| && |t| < |k|
    requires forall i, j :: 0 <= i < |r| && 0 <= j < |k| ==> r[i] != k[j]
    ensures ReplaceAll(t + r, k, v) == t + r
    decreases |t| + |r|
  {
    var s := t + r;
    if |s| >= |k| {
      assert s[..|k|][|t|] == r[0];
      assert s[..|k|] != k;
      if t != [] {
        assert s[1..] == t[1..] + r;
        ReplaceShort(t[1..], r, k, v);
      } else {
        assert s[1..] == [] + r[1..];
        ReplaceShort([], r[1..], k, v);
      }
    }
  }

  /** Text free of the key's first character is left unchanged. */
  lemma ReplaceKeyFree(s: string, k: string, v: string)
    requires |k| > 0
    requires forall i :: 0 <= i < |s| ==> s[i] != k[0]
    ensures ReplaceAll(s, k, v) == s
  {
    ReplacePrefix(s, [], k, v);
    assert s + [] == s;
  }

  /** A single trailing occurrence of the key after key-free text is the one replaced. */
  lemma ReplaceSuffix(w: string, k: string, v: string)
    requires |k| > 0
    requires forall i :: 0 <= i < |w| ==> w[i] != k[0]
    ensures ReplaceAll(w + k, k, v) == w + v
  {
    ReplacePrefix(w, k, k, v);
    assert k[|k|..] == [];
    assert v + [] == v;
  }

  // ---------------------------------------------------------------------------
  // The "localised month followed by a two-digit year" test

  /** A table from localised month abbreviations to English ones, applied in order. */
  type MonthTable = seq<(string, string)>

  /** The Spanish-to-English table, in the order the loader applies it. */
  const SpanishMonths: MonthTable := [
    ("ene", "Jan"), ("feb", "Feb"), ("mar", "Mar"), ("abr", "Apr"), ("may", "May"), ("jun", "Jun"),
    ("jul", "Jul"), ("ago", "Aug"), ("sep", "Sep"), ("oct", "Oct"), ("nov", "Nov"), ("dic", "Dec")
  ]

  function Keys(table: MonthTable): (ks: seq<string>)
    ensures |ks| == |table| && forall i :: 0 <= i < |table| ==> ks[i] == table[i].0
  {
    if table == [] then [] else [table[0].0] + Keys(table[1..])
  }

  predicate IsPrefix(p: string, s: string) {
    |p| <= |s| && s[..|p|] == p
  }

  /** Two digits closing the text (Python's `$` also accepts one final newline). */
  predicate YearDigits(w: string) {
    (|w| == 2 || (|w| == 3 && w[2] == '\n')) && IsDigit(w[0]) && IsDigit(w[1])
  }

  /** `t` matches `\s*-\s*\d{2}$`. */
  predicate DashYear(t: string) {
    var u := t[LeadingSpaces(t)..];
    |u| > 0 && u[0] == '-' && YearDigits(u[1..][LeadingSpaces(u[1..])..])
  }

  /** `t` matches `(k1|k2|...)\s*-\s*\d{2}$`, trying the alternatives in order. */
  predicate KeyThenYear(t: string, keys: seq<string>)
    decreases |keys|
  {
    |keys| > 0 &&
    ((IsPrefix(keys[0], t) && DashYear(t[|keys[0]|..])) || KeyThenYear(t, keys[1..]))
  }

  /** `s` matches `^\s*(k1|k2|...)\s*-\s*\d{2}$`. */
  predicate MatchesMonthYear(s: string, keys: seq<string>) {
    KeyThenYear(s[LeadingSpaces(s)..], keys)
  }

  /** The shape the pattern describes, with its pieces named. */
  ghost predicate MonthYearShape(s: string, keys: seq<string>,
                                 w1: string, k: string, w2: string, w3: string, y: string) {
    AllSpace(w1) && k in keys && AllSpace(w2) && AllSpace(w3) && YearDigits(y) &&
    s == w1 + (k + (w2 + ("-" + (w3 + y))))
  }

  lemma {:induction false} LeadingSpacesOf(w: string, rest: string)
    requires AllSpace(w)
    requires rest == [] || !IsSpace(rest[0])
    ensures LeadingSpaces(w + rest) == |w|
    decreases |w|
  {
    if w == [] {
      assert w + rest == rest;
    } else {
      assert (w + rest)[0] == w[0];
      assert (w + rest)[1..] == w[1..] + rest;
      LeadingSpacesOf(w[1..], rest);
    }
  }

  lemma {:induction false} KeyThenYearHas(t: string, keys: seq<string>) returns (k: string)
    requires KeyThenYear(t, keys)
    ensures k in keys && IsPrefix(k, t) && DashYear(t[|k|..])
    decreases |keys|
  {
    if IsPrefix(keys[0], t) && DashYear(t[|keys[0]|..]) {
      k := keys[0];
    } else {
      k := KeyThenYearHas(t, keys[1..]);
    }
  }

  lemma {:induction false} KeyThenYearOf(t: string, keys: seq<string>, k: string)
    requires k in keys && IsPrefix(k, t) && DashYear(t[|k|..])
    ensures KeyThenYear(t, keys)
    decreases |keys|
  {
    if keys[0] != k {
      KeyThenYearOf(t, keys[1..], k);
    }
  }

  lemma {:induction false} DashYearParts(t: string) returns (w2: string, w3: string, y: string)
    requires DashYear(t)
    ensures AllSpace(w2) && AllSpace(w3) && YearDigits(y)
    ensures t == w2 + ("-" + (w3 + y))
  {
    var b := LeadingSpaces(t);
    var u := t[b..];
    var u1 := u[1..];
    var c := LeadingSpaces(u1);
    w2, w3, y := t[..b], u1[..c], u1[c..];
    assert u == [u[0]] + u1;
    assert t == w2 + u;
    assert u1 == w3 + y;
  }

  lemma Reassemble(s: string, a: nat, k: string, rest: string)
    requires a <= |s| && IsPrefix(k, s[a..]) && s[a..][|k|..] == rest
    ensures s == s[..a] + (k + rest)
  {
    assert s[a..] == k + rest;
  }

  /** Whatever passes the scanner has the shape the pattern describes. */
  lemma MatchesMonthYearShape(s: string, keys: seq<string>)
    returns (w1: string, k: string, w2: string, w3: string, y: string)
    requires MatchesMonthYear(s, keys)
    ensures MonthYearShape(s, keys, w1, k, w2, w3, y)
  {
    var a := LeadingSpaces(s);
    k := KeyThenYearHas(s[a..], keys);
    w2, w3, y := DashYearParts(s[a..][|k|..]);
    w1 := s[..a];
    Reassemble(s, a, k, w2 + ("-" + (w3 + y)));
  }

  lemma DashYearOf(w2: string, w3: string, y: string)
    requires AllSpace(w2) && AllSpace(w3) && YearDigits(y)
    ensures DashYear(w2 + ("-" + (w3 + y)))
  {
    var t2 := w2 + ("-" + (w3 + y));
    LeadingSpacesOf(w2, "-" + (w3 + y));
    assert t2[|w2|..] == "-" + (w3 + y);
    assert ("-" + (w3 + y))[1..] == w3 + y;
    LeadingSpacesOf(w3, y);
    assert (w3 + y)[|w3|..] == y;
  }

  /** Whatever has the shape the pattern describes passes the scanner. */
  lemma ShapeMatchesMonthYear(s: string, keys: seq<string>,
                              w1: string, k: string, w2: string, w3: string, y: string)
    requires forall i :: 0 <= i < |keys| ==> |keys[i]| > 0 && !IsSpace(keys[i][0])
    requires MonthYearShape(s, keys, w1, k, w2, w3, y)
    ensures MatchesMonthYear(s, keys)
  {
    var t := k + (w2 + ("-" + (w3 + y)));
    LeadingSpacesOf(w1, t);
    assert s[|w1|..] == t;
    assert t[|k|..] == w2 + ("-" + (w3 + y));
    DashYearOf(w2, w3, y);
    KeyThenYearOf(t, keys, k);
  }

  /**
   * The scanner decides exactly the pattern: a string passes it iff it is
   * whitespace, one of the keys, whitespace, a dash, whitespace and two digits.
   */
  lemma MatchesMonthYearSpec(s: string, keys: seq<string>)
    requires forall i :: 0 <= i < |keys| ==> |keys[i]| > 0 && !IsSpace(keys[i][0])
    ensures MatchesMonthYear(s, keys) <==>
      exists w1, k, w2, w3, y :: MonthYearShape(s, keys, w1, k, w2, w3, y)
  {
    if MatchesMonthYear(s, keys) {
      var w1, k, w2, w3, y := MatchesMonthYearShape(s, keys);
    }
    if exists w1, k, w2, w3, y :: MonthYearShape(s, keys, w1, k, w2, w3, y) {
      var w1, k, w2, w3, y :| MonthYearShape(s, keys, w1, k, w2, w3, y);
      ShapeMatchesMonthYear(s, keys, w1, k, w2, w3, y);
    }
  }

  // ---------------------------------------------------------------------------
  // Month translation

  /** `k` occurs somewhere in `s`: what a regular-expression search for a literal key finds. */
  predicate Occurs(k: string, s: string) {
    exists i :: 0 <= i && i + |k| <= |s| && s[i..][..|k|] == k
  }

  /**
   * Series.replace with a table of patterns: an entry applies to a text when
   * its key occurs in the text as it was before any replacement, and is then
   * replaced everywhere in the text as the earlier entries left it.
   */
  function Translate(s: string, table: MonthTable): string
    requires forall i :: 0 <= i < |table| ==> |table[i].0| > 0
  {
    TranslateFrom(s, s, table)
  }

  /** The entries of `table` applied to `s`, each one only when its key occurs in `orig`. */
  function TranslateFrom(orig: string, s: string, table: MonthTable): string
    requires forall i :: 0 <= i < |table| ==> |table[i].0| > 0
    decreases |table|
  {
    if table == [] then s
    else
      var next := if Occurs(table[0].0, orig) then ReplaceAll(s, table[0].0, table[0].1) else s;
      TranslateFrom(orig, next, table[1..])
  }

  /** The English abbreviation of the first entry for `x`, or `x` itself. */
  function Lookup(x: string, table: MonthTable): string
    decreases |table|
  {
    if table == [] then x
    else if table[0].0 == x then table[0].1
    else Lookup(x, table[1..])
  }

  /** Keys are three lower-case letters; values are three characters starting with a non-lower-case one. */
  predicate LetterKeyed(table: MonthTable) {
    forall i :: 0 <= i < |table| ==>
      |table[i].0| == 3 && AllKeyChar(table[i].0) && |table[i].1| == 3 && !KeyChar(table[i].1[0])
  }

  /** A three-character token that is either all key letters or starts with a non-key character. */
  predicate Token(x: string) {
    |x| == 3 && (AllKeyChar(x) || !KeyChar(x[0]))
  }

  lemma ReplaceToken(w1: string, x: string, r: string, k: string, v: string)
    requires NoKeyChar(w1) && NoKeyChar(r) && Token(x)
    requires |k| == 3 && AllKeyChar(k)
    ensures ReplaceAll(w1 + x + r, k, v) == w1 + (if x == k then v else x) + r
  {
    ReplacePrefix(w1, x + r, k, v);
    assert w1 + x + r == w1 + (x + r);
    var s := x + r;
    assert s[..3] == x;
    if x == k {
      assert s[3..] == r;
      ReplaceShort([], r, k, v);
      assert [] + r == r;
    } else {
      assert s[1..] == x[1..] + r;
      ReplaceShort(x[1..], r, k, v);
      assert [x[0]] + (x[1..] + r) == x + r;
    }
  }

  /** In a month token framed by text without lower-case letters, a three-letter key occurs only as the token. */
  lemma OccursToken(w1: string, x: string, r: string, k: string)
    requires NoKeyChar(w1) && NoKeyChar(r) && Token(x)
    requires |k| == 3 && AllKeyChar(k)
    ensures Occurs(k, w1 + x + r) <==> k == x
  {
    var s := w1 + x + r;
    if k == x {
      assert s[|w1|..][..3] == x;
    }
    if Occurs(k, s) {
      var i :| 0 <= i && i + 3 <= |s| && s[i..][..3] == k;
      assert s[i] == k[0] && s[i + 2] == k[2];
      assert KeyChar(k[0]) && KeyChar(k[2]);
      assert i == |w1|;
      assert s[i..][..3] == x;
    }
  }

  /**
   * The entries applied to a month token framed by text without lower-case
   * letters, when exactly the entries keyed by the original token `x0` occur
   * in the original text: the token, while it is still `x0`, becomes its
   * English abbreviation; a token that is no longer a key stays as it is.
   */
  lemma {:induction false} TranslateFromToken(o: string, w1: string, x0: string, x: string, r: string, table: MonthTable)
    requires LetterKeyed(table)
    requires NoKeyChar(w1) && NoKeyChar(r) && Token(x)
    requires forall i :: 0 <= i < |table| ==> (Occurs(table[i].0, o) <==> table[i].0 == x0)
    requires x == x0 || !KeyChar(x[0])
    ensures TranslateFrom(o, w1 + x + r, table) == w1 + (if x == x0 then Lookup(x0, table) else x) + r
    decreases |table|
  {
    if table != [] {
      var k, v := table[0].0, table[0].1;
      var tail := table[1..];
      assert LetterKeyed(tail) by {
        forall i | 0 <= i < |tail| ensures tail[i] == table[i + 1] { }
      }
      assert forall i :: 0 <= i < |tail| ==> (Occurs(tail[i].0, o) <==> tail[i].0 == x0) by {
        forall i | 0 <= i < |tail| ensures tail[i] == table[i + 1] { }
      }
      if Occurs(k, o) {
        ReplaceToken(w1, x, r, k, v);
        var x' := if x == k then v else x;
        assert !KeyChar(v[0]);
        TranslateFromToken(o, w1, x0, x', r, tail);
        if x == x0 {
          assert x' == v && v != x0;
        } else {
          assert x' == x;
        }
      } else {
        TranslateFromToken(o, w1, x0, x, r, tail);
      }
    }
  }

  /**
   * A month token framed by text without lower-case letters is translated to
   * its English abbreviation, and nothing around it changes.
   */
  lemma TranslateToken(w1: string, x: string, r: string, table: MonthTable)
    requires LetterKeyed(table)
    requires NoKeyChar(w1) && NoKeyChar(r) && Token(x)
    ensures Translate(w1 + x + r, table) == w1 + Lookup(x, table) + r
  {
    var o := w1 + x + r;
    forall i | 0 <= i < |table| ensures Occurs(table[i].0, o) <==> table[i].0 == x {
      OccursToken(w1, x, r, table[i].0);
    }
    TranslateFromToken(o, w1, x, x, r, table);
  }

  /** A month key followed by text without lower-case letters: the key is translated, the rest kept. */
  lemma KeyDateTranslated(table: MonthTable, k: string, rest: string)
    requires LetterKeyed(table) && k in Keys(table) && NoKeyChar(rest)
    ensures Translate(k + rest, table) == Lookup(k, table) + rest
  {
    var none: string := [];
    assert Token(k) by {
      var j :| 0 <= j < |table| && Keys(table)[j] == k;
      assert table[j].0 == k;
    }
    assert none + k + rest == k + rest;
    assert none + Lookup(k, table) + rest == Lookup(k, table) + rest;
    TranslateToken(none, k, rest, table);
  }

  /** An English abbreviation is never touched by the entries. */
  lemma {:induction false} TranslateValueStable(w1: string, v: string, r: string, table: MonthTable)
    requires LetterKeyed(table)
    requires NoKeyChar(w1) && NoKeyChar(r) && |v| == 3 && !KeyChar(v[0])
    ensures Translate(w1 + v + r, table) == w1 + v + r
    ensures Lookup(v, table) == v
    decreases |table|
  {
    if table != [] {
      assert table[0].0 != v by { assert KeyChar(table[0].0[0]); }
      assert LetterKeyed(table[1..]) by {
        forall i | 0 <= i < |table[1..]| ensures table[1..][i] == table[i + 1] { }
      }
      TranslateValueStable(w1, v, r, table[1..]);
    }
    TranslateToken(w1, v, r, table);
  }

  /** A text in which no key of the table occurs is left as it is, whatever the replacements would make of it. */
  lemma {:induction false} TranslateUnmatched(orig: string, s: string, table: MonthTable)
    requires forall i :: 0 <= i < |table| ==> |table[i].0| > 0
    requires forall i :: 0 <= i < |table| ==> !Occurs(table[i].0, orig)
    ensures TranslateFrom(orig, s, table) == s
    decreases |table|
  {
    if table != [] {
      var tail := table[1..];
      assert forall i :: 0 <= i < |tail| ==> tail[i] == table[i + 1];
      TranslateUnmatched(orig, s, tail);
    }
  }

  /** Text without lower-case letters (a dd/mm/yyyy date, say) is never altered. */
  lemma TranslateKeyFree(s: string, table: MonthTable)
    requires LetterKeyed(table)
    requires NoKeyChar(s)
    ensures Translate(s, table) == s
  {
    forall i | 0 <= i < |table| ensures !Occurs(table[i].0, s) {
      var k := table[i].0;
      forall j | 0 <= j && j + |k| <= |s| ensures s[j..][..|k|] != k {
        assert s[j..][..|k|][0] == s[j];
      }
    }
    TranslateUnmatched(s, s, table);
  }

  /**
   * Replacements do not cascade: "eneov" holds "ene" but not "nov", so only
   * "ene" is replaced, although doing so makes "nov" appear.
   */
  lemma TranslateNoCascade()
    ensures Translate("eneov", SpanishMonths) == "Janov"
  {
    var o := "eneov";
    assert o[0..][..3] == "ene";
    assert Occurs("ene", o);
    forall i | 1 <= i < |SpanishMonths| ensures !Occurs(SpanishMonths[i].0, o) {
      var k := SpanishMonths[i].0;
      assert |k| == 3 && k != "ene" && k != "neo" && k != "eov";
      forall j | 0 <= j && j + 3 <= |o| ensures o[j..][..3] != k {
        if j == 0 {
          assert o[0..][..3] == "ene";
        } else if j == 1 {
          assert o[1..][..3] == "neo";
        } else {
          assert o[2..][..3] == "eov";
        }
      }
    }
    assert ReplaceAll(o, "ene", "Jan") == "Janov";
    TranslateUnmatched(o, "Janov", SpanishMonths[1..]);
  }

  lemma SpanishMonthsLetterKeyed()
    ensures LetterKeyed(SpanishMonths)
    ensures forall i :: 0 <= i < |SpanishMonths| ==> !IsSpace(SpanishMonths[i].0[0])
  {
  }
}
