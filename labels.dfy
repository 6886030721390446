// The leading footnote label of a text: the three regular expressions of
// cleanup.js, `^\s*\(\d+\)`, `^\s*\d+[\s.-]` and `^\s*\d+`, evaluated by a
// left-to-right scan. Each scanner is tied to the regular expression it
// stands for by a lemma: the expression matches exactly when the text splits
// as "white space, digits, ..." (`ParenShaped`, `NumberShaped`,
// `LeadShaped`), and the rewrite then replaces exactly that prefix.
module Labels {
  import opened Wrappers
  import opened Decimal

  /** `\s` of an ECMAScript regular expression: the WhiteSpace and
      LineTerminator code points. */
  predicate IsSpace(c: char) {
    c == '\t' || c == '\n' || c == '\U{000B}' || c == '\U{000C}' || c == '\r' ||
    c == ' ' || c == '\U{00A0}' || c == '\U{1680}' ||
    ('\U{2000}' <= c <= '\U{200A}') ||
    c == '\U{2028}' || c == '\U{2029}' || c == '\U{202F}' || c == '\U{205F}' ||
    c == '\U{3000}' || c == '\U{FEFF}'
  }

  predicate AllSpace(s: string) {
    forall i :: 0 <= i < |s| ==> IsSpace(s[i])
  }

  /** The class `[\s.-]`. */
  predicate IsSeparator(c: char) {
    IsSpace(c) || c == '.' || c == '-'
  }

  /** The length of the longest all-space prefix of `s` (what `^\s*` takes). */
  function SpaceRun(s: string): (n: nat)
    ensures n <= |s| && AllSpace(s[..n])
    ensures n < |s| ==> !IsSpace(s[n])
    decreases |s|
  {
    if s == [] || !IsSpace(s[0]) then 0
    else
      var m := SpaceRun(s[1..]);
      assert s[..1 + m] == [s[0]] + s[1..][..m];
      1 + m
  }

  /** The end of the longest run of ASCII digits of `s` starting at `i`
      (what a greedy `\d+` or `\d*` takes there). */
  function DigitRun(s: string, i: nat): (n: nat)
    requires i <= |s|
    ensures i <= n <= |s| && AllDigits(s[i..n])
    ensures n < |s| ==> !IsDigit(s[n])
    decreases |s| - i
  {
    if i == |s| || !IsDigit(s[i]) then i
    else
      var m := DigitRun(s, i + 1);
      assert s[i..m] == [s[i]] + s[i + 1..m];
      m
  }

  lemma SpaceRunUnique(s: string, n: nat)
    requires n <= |s| && AllSpace(s[..n]) && (n < |s| ==> !IsSpace(s[n]))
    ensures SpaceRun(s) == n
  {
    var m := SpaceRun(s);
    forall k | 0 <= k < n
      ensures IsSpace(s[k])
    {
      assert s[..n][k] == s[k];
    }
    forall k | 0 <= k < m
      ensures IsSpace(s[k])
    {
      assert s[..m][k] == s[k];
    }
  }

  lemma DigitRunUnique(s: string, i: nat, n: nat)
    requires i <= n <= |s| && AllDigits(s[i..n]) && (n < |s| ==> !IsDigit(s[n]))
    ensures DigitRun(s, i) == n
  {
    var m := DigitRun(s, i);
    forall k | i <= k < n
      ensures IsDigit(s[k])
    {
      assert s[i..n][k - i] == s[k];
    }
    forall k | i <= k < m
      ensures IsDigit(s[k])
    {
      assert s[i..m][k - i] == s[k];
    }
  }

  // ---------------------------------------------------------------------------
  // The regular expressions, as decompositions of the text.

  /** `txt` splits as `ws ( ds ) rest` with `ws` white space and `ds` a
      nonempty run of digits. */
  ghost predicate ParenSplit(txt: string, ws: string, ds: string, rest: string) {
    AllSpace(ws) && |ds| > 0 && AllDigits(ds) && txt == ws + "(" + ds + ")" + rest
  }

  /** `/^\s*\(\d+\)/` matches `txt`. */
  ghost predicate ParenShaped(txt: string) {
    exists ws, ds, rest :: ParenSplit(txt, ws, ds, rest)
  }

  /** `txt` splits as `ws ds sep rest` with `sep` in `[\s.-]`. */
  ghost predicate NumberSplit(txt: string, ws: string, ds: string, sep: char, rest: string) {
    AllSpace(ws) && |ds| > 0 && AllDigits(ds) && IsSeparator(sep) && txt == ws + ds + [sep] + rest
  }

  /** `/^\s*\d+[\s.-]/` matches `txt`. */
  ghost predicate NumberShaped(txt: string) {
    exists ws, ds, sep, rest :: NumberSplit(txt, ws, ds, sep, rest)
  }

  /** `txt` splits as `ws ds rest` with `rest` not starting with a digit,
      which is how the greedy `/^\s*\d+/` divides it. */
  ghost predicate LeadSplit(txt: string, ws: string, ds: string, rest: string) {
    AllSpace(ws) && |ds| > 0 && AllDigits(ds) && (rest != [] ==> !IsDigit(rest[0])) &&
    txt == ws + ds + rest
  }

  /** `/^\s*\d+/` matches `txt`. */
  ghost predicate LeadShaped(txt: string) {
    exists ws, ds :: AllSpace(ws) && |ds| > 0 && AllDigits(ds) && StartsWith(txt, ws + ds)
  }

  predicate StartsWith(s: string, prefix: string) {
    |prefix| <= |s| && s[..|prefix|] == prefix
  }

  // ---------------------------------------------------------------------------
  // The scanners.

  /** The position just past `(` digits `)` after the leading white space of
      `txt`, when the text starts that way. */
  function ParenEnd(txt: string): (r: Option<nat>)
    ensures r.Some? ==> r.value <= |txt|
  {
    var w := SpaceRun(txt);
    if w < |txt| && txt[w] == '(' then
      var d := DigitRun(txt, w + 1);
      if d > w + 1 && d < |txt| && txt[d] == ')' then Some(d + 1) else None
    else None
  }

  /** The end of the leading digits after the white space, when a
      separator follows them. */
  function NumberEnd(txt: string): (r: Option<nat>)
    ensures r.Some? ==> r.value < |txt|
  {
    var w := SpaceRun(txt);
    var d := DigitRun(txt, w);
    if d > w && d < |txt| && IsSeparator(txt[d]) then Some(d) else None
  }

  /** The new text of a `<p>` whose text is `txt`, as updateLeadingNumber
      computes it, or None when neither pattern matches and the element is
      left alone. */
  function Relabel(txt: string, newNum: nat): (r: Option<string>)
    ensures r.Some? ==> StartsWith(r.value, "(" + NatToString(newNum) + ")") || StartsWith(r.value, NatToString(newNum))
  {
    match ParenEnd(txt)
    case Some(e) => Some("(" + NatToString(newNum) + ")" + txt[e..])
    case None =>
      match NumberEnd(txt)
      case Some(d) => Some(NatToString(newNum) + txt[d..])
      case None => None
  }

  /** The new data of a footnote's leading text node (the third pass). */
  function ReplaceLeadingDigits(data: string, newNum: nat): (r: string)
    ensures r == data || StartsWith(r, NatToString(newNum))
  {
    var w := SpaceRun(data);
    var d := DigitRun(data, w);
    if d > w then NatToString(newNum) + data[d..] else data
  }

  // ---------------------------------------------------------------------------
  // The scanners agree with the regular expressions.

  lemma {:induction false} ParenEndSplit(txt: string, ws: string, ds: string, rest: string)
    requires ParenSplit(txt, ws, ds, rest)
    ensures ParenEnd(txt) == Some(|ws| + |ds| + 2)
    ensures txt[|ws| + |ds| + 2..] == rest
  {
    var w := |ws|;
    assert txt[..w] == ws;
    assert txt[w] == '(';
    SpaceRunUnique(txt, w);
    assert txt[w + 1..w + 1 + |ds|] == ds;
    assert txt[w + 1 + |ds|] == ')';
    DigitRunUnique(txt, w + 1, w + 1 + |ds|);
    assert txt[w + |ds| + 2..] == rest;
  }

  lemma {:induction false} ParenEndShaped(txt: string)
    requires ParenEnd(txt).Some?
    ensures ParenShaped(txt)
  {
    var w := SpaceRun(txt);
    var d := DigitRun(txt, w + 1);
    var ws, ds, rest := txt[..w], txt[w + 1..d], txt[d + 1..];
    assert txt == ws + "(" + ds + ")" + rest;
    assert ParenSplit(txt, ws, ds, rest);
  }

  /** `ParenEnd` finds a match exactly when `/^\s*\(\d+\)/` matches. */
  lemma ParenEndMatches(txt: string)
    ensures ParenEnd(txt).Some? <==> ParenShaped(txt)
  {
    if ParenEnd(txt).Some? {
      ParenEndShaped(txt);
    }
    if ParenShaped(txt) {
      var ws, ds, rest :| ParenSplit(txt, ws, ds, rest);
      ParenEndSplit(txt, ws, ds, rest);
    }
  }

  lemma {:induction false} NumberEndSplit(txt: string, ws: string, ds: string, sep: char, rest: string)
    requires NumberSplit(txt, ws, ds, sep, rest)
    ensures NumberEnd(txt) == Some(|ws| + |ds|)
    ensures txt[|ws| + |ds|..] == [sep] + rest
  {
    var w := |ws|;
    assert txt[..w] == ws;
    assert IsDigit(ds[0]) && txt[w] == ds[0];
    SpaceRunUnique(txt, w);
    assert txt[w..w + |ds|] == ds;
    assert txt[w + |ds|] == sep;
    DigitRunUnique(txt, w, w + |ds|);
    assert txt[w + |ds|..] == [sep] + rest;
  }

  lemma {:induction false} NumberEndShaped(txt: string)
    requires NumberEnd(txt).Some?
    ensures NumberShaped(txt)
  {
    var w := SpaceRun(txt);
    var d := DigitRun(txt, w);
    var ws, ds, sep, rest := txt[..w], txt[w..d], txt[d], txt[d + 1..];
    assert txt == ws + ds + [sep] + rest;
    assert NumberSplit(txt, ws, ds, sep, rest);
  }

  /** `NumberEnd` finds a match exactly when `/^\s*\d+[\s.-]/` matches. */
  lemma NumberEndMatches(txt: string)
    ensures NumberEnd(txt).Some? <==> NumberShaped(txt)
  {
    if NumberEnd(txt).Some? {
      NumberEndShaped(txt);
    }
    if NumberShaped(txt) {
      var ws, ds, sep, rest :| NumberSplit(txt, ws, ds, sep, rest);
      NumberEndSplit(txt, ws, ds, sep, rest);
    }
  }

  /** The two patterns exclude each other: one needs `(`, the other a digit,
      right after the white space. */
  lemma ShapesDisjoint(txt: string)
    ensures !(ParenShaped(txt) && NumberShaped(txt))
  {
    if ParenShaped(txt) {
      var ws, ds, rest :| ParenSplit(txt, ws, ds, rest);
      ParenEndSplit(txt, ws, ds, rest);
      assert txt[|ws|] == '(';
      DigitRunUnique(txt, |ws|, |ws|);
      NumberEndMatches(txt);
    }
  }

  // ---------------------------------------------------------------------------
  // What updateLeadingNumber does, in terms of the regular expressions.

  /** updateLeadingNumber rewrites the text exactly when one of its two
      patterns matches. */
  lemma RelabelMatches(txt: string, newNum: nat)
    ensures Relabel(txt, newNum).Some? <==> ParenShaped(txt) || NumberShaped(txt)
  {
    ParenEndMatches(txt);
    NumberEndMatches(txt);
  }

  /** The `(1)` style: the white space and the old number go, the
      parentheses and everything after them stay. */
  lemma RelabelParen(ws: string, ds: string, rest: string, newNum: nat)
    requires AllSpace(ws) && |ds| > 0 && AllDigits(ds)
    ensures Relabel(ws + "(" + ds + ")" + rest, newNum) == Some("(" + NatToString(newNum) + ")" + rest)
  {
    ParenEndSplit(ws + "(" + ds + ")" + rest, ws, ds, rest);
  }

  /** The `1-` / `1.` / `1 ` style: the white space and the old number are
      replaced by the new number; the separator and the rest stay. */
  lemma RelabelNumber(ws: string, ds: string, sep: char, rest: string, newNum: nat)
    requires AllSpace(ws) && |ds| > 0 && AllDigits(ds) && IsSeparator(sep)
    ensures Relabel(ws + ds + [sep] + rest, newNum) == Some(NatToString(newNum) + [sep] + rest)
  {
    var txt := ws + ds + [sep] + rest;
    NumberEndSplit(txt, ws, ds, sep, rest);
    assert txt[..|ws|] == ws;
    SpaceRunUnique(txt, |ws|);
    assert txt[|ws|] == ds[0];
    assert ParenEnd(txt) == None;
    assert NatToString(newNum) + txt[|ws| + |ds|..] == NatToString(newNum) + [sep] + rest;
  }

  /** A relabelled text still carries a label of the same style, and
      relabelling it again gives what relabelling the original would have
      given: a later run with other numbers overrides an earlier one, and a
      run with the same number changes nothing more. */
  lemma RelabelAgain(txt: string, m: nat, n: nat)
    requires Relabel(txt, m).Some?
    ensures Relabel(Relabel(txt, m).value, n) == Relabel(txt, n)
  {
    if ParenEnd(txt).Some? {
      RelabelAgainParen(txt, m, n);
    } else {
      RelabelAgainNumber(txt, m, n);
    }
  }

  lemma RelabelAgainParen(txt: string, m: nat, n: nat)
    requires ParenEnd(txt).Some?
    ensures Relabel(Relabel(txt, m).value, n) == Relabel(txt, n)
  {
    var rest := txt[ParenEnd(txt).value..];
    RelabelParen("", NatToString(m), rest, n);
    assert "" + "(" + NatToString(m) + ")" + rest == Relabel(txt, m).value;
  }

  lemma RelabelAgainNumber(txt: string, m: nat, n: nat)
    requires ParenEnd(txt).None? && NumberEnd(txt).Some?
    ensures Relabel(Relabel(txt, m).value, n) == Relabel(txt, n)
  {
    var d := NumberEnd(txt).value;
    var sep, rest := txt[d], txt[d + 1..];
    var s := NatToString(m);
    assert IsSeparator(sep);
    assert txt[d..] == [sep] + rest;
    assert Relabel(txt, m).value == s + txt[d..];
    assert "" + s + [sep] + rest == s + ([sep] + rest);
    RelabelNumber("", s, sep, rest, n);
    assert Relabel(txt, n).value == NatToString(n) + ([sep] + rest);
    assert NatToString(n) + [sep] + rest == NatToString(n) + ([sep] + rest);
  }

  lemma RelabelIdempotent(txt: string, m: nat)
    requires Relabel(txt, m).Some?
    ensures Relabel(Relabel(txt, m).value, m) == Relabel(txt, m)
  {
    RelabelAgain(txt, m, m);
  }

  /** The labels the scanner does not take: digits with nothing after
      them, and digits outside ASCII (`\d` is ASCII only). */
  lemma RelabelNeedsSeparator(ws: string, ds: string, newNum: nat)
    requires AllSpace(ws) && |ds| > 0 && AllDigits(ds)
    ensures Relabel(ws + ds, newNum) == None
  {
    var txt := ws + ds;
    assert txt[..|ws|] == ws && txt[|ws|..] == ds;
    if |ws| < |txt| {
      assert txt[|ws|] == ds[0];
    }
    SpaceRunUnique(txt, |ws|);
    DigitRunUnique(txt, |ws|, |txt|);
  }

  /** A label whose first digit is an Arabic-Indic one (U+0660..U+0669) is
      no `\d` label, whatever follows it. */
  lemma RelabelArabicIndic(ws: string, c: char, rest: string, newNum: nat)
    requires AllSpace(ws) && '\U{0660}' <= c <= '\U{0669}'
    ensures Relabel(ws + [c] + rest, newNum) == None
  {
    var txt := ws + [c] + rest;
    assert txt[..|ws|] == ws;
    assert txt[|ws|] == c;
    SpaceRunUnique(txt, |ws|);
    DigitRunUnique(txt, |ws|, |ws|);
  }

  /** Nor does the third pass touch such a text. */
  lemma ReplaceLeadingDigitsArabicIndic(ws: string, c: char, rest: string, newNum: nat)
    requires AllSpace(ws) && '\U{0660}' <= c <= '\U{0669}'
    ensures ReplaceLeadingDigits(ws + [c] + rest, newNum) == ws + [c] + rest
  {
    var txt := ws + [c] + rest;
    assert txt[..|ws|] == ws;
    assert txt[|ws|] == c;
    SpaceRunUnique(txt, |ws|);
    DigitRunUnique(txt, |ws|, |ws|);
  }

  // ---------------------------------------------------------------------------
  // The third pass.

  /** When the data starts with white space and digits, exactly that prefix
      becomes the new number. */
  lemma {:induction false} ReplaceLeadingDigitsSplit(data: string, ws: string, ds: string, rest: string, newNum: nat)
    requires LeadSplit(data, ws, ds, rest)
    ensures ReplaceLeadingDigits(data, newNum) == NatToString(newNum) + rest
  {
    var w := |ws|;
    assert data[..w] == ws;
    assert data[w] == ds[0];
    SpaceRunUnique(data, w);
    assert data[w..w + |ds|] == ds;
    if rest != [] {
      assert data[w + |ds|] == rest[0];
    }
    DigitRunUnique(data, w, w + |ds|);
    assert data[w + |ds|..] == rest;
  }

  /** Otherwise the data is left as it is. */
  lemma ReplaceLeadingDigitsNoMatch(data: string, newNum: nat)
    requires !LeadShaped(data)
    ensures ReplaceLeadingDigits(data, newNum) == data
  {
    LeadScanShaped(data);
  }

  /** Digits found by the scan mean the pattern matches. */
  lemma LeadScanShaped(data: string)
    ensures DigitRun(data, SpaceRun(data)) > SpaceRun(data) ==> LeadShaped(data)
  {
    var w := SpaceRun(data);
    var d := DigitRun(data, w);
    if d > w {
      var ws, ds := data[..w], data[w..d];
      assert ws + ds == data[..d];
      assert StartsWith(data, ws + ds);
    }
  }

  /** A match of `/^\s*\d+/` always splits as `LeadSplit` describes. */
  lemma LeadShapedSplit(data: string)
    requires LeadShaped(data)
    ensures exists ws, ds, rest :: LeadSplit(data, ws, ds, rest)
  {
    var ws, ds :| AllSpace(ws) && |ds| > 0 && AllDigits(ds) && StartsWith(data, ws + ds);
    assert data[|ws|] == (ws + ds)[|ws|] == ds[0];
    assert data[..|ws|] == ws;
    SpaceRunUnique(data, |ws|);
    var d := DigitRun(data, |ws|);
    var ws', ds', rest := data[..|ws|], data[|ws|..d], data[d..];
    assert data == ws' + ds' + rest;
    assert LeadSplit(data, ws', ds', rest);
  }

  /** Running the third pass again overrides the earlier number. */
  lemma {:induction false} ReplaceLeadingDigitsAgain(data: string, m: nat, n: nat)
    ensures ReplaceLeadingDigits(ReplaceLeadingDigits(data, m), n) == ReplaceLeadingDigits(data, n)
  {
    var w := SpaceRun(data);
    var d := DigitRun(data, w);
    if d > w {
      var rest := data[d..];
      ReplaceLeadingDigitsSplit(NatToString(m) + rest, "", NatToString(m), rest, n);
      assert "" + NatToString(m) + rest == NatToString(m) + rest;
    }
  }
}
