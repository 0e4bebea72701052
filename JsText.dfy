/** The JavaScript string primitives the crawlers rely on: `\s` in a regular expression,
    `trim`, `toLowerCase` (ASCII letters only), a global `replace` of one character,
    `replace(/\s+/g, "-")` and `Array.prototype.join`. */
module JsText {

  /** The characters matched by `\s` and removed by `trim`: ECMAScript's WhiteSpace
      (tab, vertical tab, form feed, space, no-break space, the byte order mark and the
      other space separators) and LineTerminator (LF, CR, U+2028, U+2029). */
  predicate IsSpace(c: char) {
    ('\t' <= c <= '\r') || c == ' ' || c == '\U{A0}' || c == '\U{1680}'
    || ('\U{2000}' <= c <= '\U{200A}') || c == '\U{2028}' || c == '\U{2029}'
    || c == '\U{202F}' || c == '\U{205F}' || c == '\U{3000}' || c == '\U{FEFF}'
  }

  predicate IsUpperAscii(c: char) {
    'A' <= c <= 'Z'
  }

  predicate NoSpace(s: string) {
    forall i :: 0 <= i < |s| ==> !IsSpace(s[i])
  }

  predicate NoUpper(s: string) {
    forall i :: 0 <= i < |s| ==> !IsUpperAscii(s[i])
  }

  // ----------------------------------------------------------------------------
  // toLowerCase

  /** Lower-case mapping of one character, restricted to the ASCII letters. */
  function LowerChar(c: char): (d: char)
    ensures !IsUpperAscii(d)
    ensures IsUpperAscii(c) || d == c
    ensures IsUpperAscii(c) ==> 'a' <= d <= 'z' && d as int - 'a' as int == c as int - 'A' as int
    ensures IsSpace(d) == IsSpace(c)
  {
    if IsUpperAscii(c) then (c as int + 32) as char else c
  }

  function ToLower(s: string): (r: string)
    ensures |r| == |s|
    ensures forall i :: 0 <= i < |s| ==> r[i] == LowerChar(s[i])
  {
    seq(|s|, i requires 0 <= i < |s| => LowerChar(s[i]))
  }

  lemma ToLowerResult(s: string)
    ensures NoUpper(ToLower(s))
    ensures NoSpace(s) ==> NoSpace(ToLower(s))
    ensures '&' in ToLower(s) <==> '&' in s
  {
    var r := ToLower(s);
    if '&' in r {
      var i :| 0 <= i < |r| && r[i] == '&';
      assert s[i] == '&';
    }
    if '&' in s {
      var i :| 0 <= i < |s| && s[i] == '&';
      assert r[i] == '&';
    }
  }

  /** Lower-casing a string without upper-case letters changes nothing; in particular
      lower-casing is idempotent. */
  lemma ToLowerFixesLowerCase(s: string)
    requires NoUpper(s)
    ensures ToLower(s) == s
  {
  }

  lemma ToLowerIdempotent(s: string)
    ensures ToLower(ToLower(s)) == ToLower(s)
  {
    ToLowerResult(s);
    ToLowerFixesLowerCase(ToLower(s));
  }

  // ----------------------------------------------------------------------------
  // replace(/c/g, rep)

  /** Every occurrence of `c` in `s` replaced by `rep`, left to right. */
  function ReplaceAll(s: string, c: char, rep: string): (r: string)
    ensures c !in s ==> r == s
    ensures |rep| >= 1 ==> |r| >= |s|
  {
    if s == [] then [] else ReplaceStep(s[0], c, rep) + ReplaceAll(s[1..], c, rep)
  }

  /** What one character contributes to the replacement. */
  function ReplaceStep(d: char, c: char, rep: string): string {
    if d == c then rep else [d]
  }

  /** Every character of the result comes from `rep` or is a character of `s` other
      than `c`. */
  lemma {:induction false} ReplaceAllChars(s: string, c: char, rep: string, d: char)
    requires d in ReplaceAll(s, c, rep)
    ensures d in rep || (d in s && d != c)
  {
    var head := ReplaceStep(s[0], c, rep);
    var tail := ReplaceAll(s[1..], c, rep);
    assert ReplaceAll(s, c, rep) == head + tail;
    if d !in head {
      ReplaceAllChars(s[1..], c, rep, d);
      if d in s[1..] {
        var j :| 0 <= j < |s[1..]| && s[1..][j] == d;
        assert s[j + 1] == d;
      }
    }
  }

  /** Each occurrence is replaced independently of its neighbours. */
  lemma {:induction false} ReplaceAllAppend(a: string, b: string, c: char, rep: string)
    ensures ReplaceAll(a + b, c, rep) == ReplaceAll(a, c, rep) + ReplaceAll(b, c, rep)
  {
    if a == [] {
      assert a + b == b;
    } else {
      ConsAppend(a, b);
      ReplaceAllAppend(a[1..], b, c, rep);
      calc {
        ReplaceAll(a + b, c, rep);
        ReplaceStep(a[0], c, rep) + ReplaceAll(a[1..] + b, c, rep);
        ReplaceStep(a[0], c, rep) + (ReplaceAll(a[1..], c, rep) + ReplaceAll(b, c, rep));
      }
    }
  }

  /** An occurrence of `c` on its own becomes `rep`; with ReplaceAllAppend and the
      `c !in s` clause this determines the whole replacement. */
  lemma ReplaceAllOne(c: char, rep: string)
    ensures ReplaceAll([c], c, rep) == rep
  {
    assert ReplaceAll([c], c, rep) == rep + ReplaceAll([], c, rep);
  }

  /** A last character other than `c` stays last. */
  lemma ReplaceAllLast(s: string, c: char, rep: string)
    requires s != [] && s[|s| - 1] != c
    ensures var r := ReplaceAll(s, c, rep);
      r != [] && r[|r| - 1] == s[|s| - 1]
  {
    var n := |s|;
    assert s == s[..n - 1] + [s[n - 1]];
    ReplaceAllAppend(s[..n - 1], [s[n - 1]], c, rep);
    assert ReplaceAll([s[n - 1]], c, rep) == [s[n - 1]] + ReplaceAll([], c, rep);
  }

  /** A first character other than `c` stays first. */
  lemma ReplaceAllFirst(s: string, c: char, rep: string)
    requires s != [] && s[0] != c
    ensures var r := ReplaceAll(s, c, rep);
      r != [] && r[0] == s[0]
  {
    assert ReplaceAll(s, c, rep) == [s[0]] + ReplaceAll(s[1..], c, rep);
  }

  // ----------------------------------------------------------------------------
  // replace(/\s+/g, "-")

  /** Every maximal run of whitespace replaced by one `-`, scanning left to right;
      `inRun` says whether the character before `s` was whitespace (and so already gave
      its run's `-`). */
  function CollapseFrom(s: string, inRun: bool): (r: string)
    ensures |r| <= |s|
  {
    if s == [] then [] else CollapseStep(s[0], inRun) + CollapseFrom(s[1..], IsSpace(s[0]))
  }

  /** What one character contributes: itself, the `-` that opens a run, or nothing
      inside a run. */
  function CollapseStep(c: char, inRun: bool): (r: string)
    ensures |r| <= 1
  {
    if !IsSpace(c) then [c] else if inRun then [] else "-"
  }

  /** `s.replace(/\s+/g, "-")`. */
  function CollapseSpaces(s: string): (r: string)
    ensures |r| <= |s|
    ensures r == [] <==> s == []
  {
    CollapseFrom(s, false)
  }

  /** No whitespace survives. */
  lemma {:induction false} CollapseFromNoSpace(s: string, inRun: bool)
    ensures NoSpace(CollapseFrom(s, inRun))
  {
    if s != [] {
      CollapseFromNoSpace(s[1..], IsSpace(s[0]));
    }
  }

  /** The first character survives, or becomes `-` when it is whitespace. */
  lemma CollapseSpacesFirst(s: string)
    requires s != []
    ensures var r := CollapseSpaces(s);
      r != [] && r[0] == (if IsSpace(s[0]) then '-' else s[0])
  {
  }

  /** Whether the scan is inside a whitespace run after reading `a`. */
  function EndsInRun(a: string, inRun: bool): bool {
    if a == [] then inRun else IsSpace(a[|a| - 1])
  }

  /** The scan of `a + b` is the scan of `a` followed by the scan of `b` in the state
      `a` leaves behind. */
  lemma {:induction false} CollapseFromAppend(a: string, b: string, inRun: bool)
    ensures CollapseFrom(a + b, inRun) == CollapseFrom(a, inRun) + CollapseFrom(b, EndsInRun(a, inRun))
  {
    if a == [] {
      assert a + b == b;
    } else {
      var head, next := CollapseStep(a[0], inRun), IsSpace(a[0]);
      ConsAppend(a, b);
      CollapseFromAppend(a[1..], b, next);
      EndsInRunTail(a, inRun);
      calc {
        CollapseFrom(a + b, inRun);
        head + CollapseFrom(a[1..] + b, next);
        head + (CollapseFrom(a[1..], next) + CollapseFrom(b, EndsInRun(a, inRun)));
        (head + CollapseFrom(a[1..], next)) + CollapseFrom(b, EndsInRun(a, inRun));
      }
    }
  }

  lemma ConsAppend(a: string, b: string)
    requires a != []
    ensures a + b != [] && (a + b)[0] == a[0] && (a + b)[1..] == a[1..] + b
  {
  }

  lemma EndsInRunTail(a: string, inRun: bool)
    requires a != []
    ensures EndsInRun(a[1..], IsSpace(a[0])) == EndsInRun(a, inRun)
  {
    if |a| > 1 {
      assert a[1..][|a| - 2] == a[|a| - 1];
    }
  }

  /** Before a non-whitespace character the scan state does not matter. */
  lemma CollapseFromStateIrrelevant(s: string)
    requires s == [] || !IsSpace(s[0])
    ensures CollapseFrom(s, true) == CollapseFrom(s, false)
  {
  }

  /** Nothing is trimmed: the last character survives, or becomes `-` when it is
      whitespace (CollapseSpacesFirst says the same of the first character). */
  lemma CollapseSpacesLast(s: string)
    requires s != []
    ensures var r := CollapseSpaces(s);
      r != [] && r[|r| - 1] == (if IsSpace(s[|s| - 1]) then '-' else s[|s| - 1])
  {
    var n := |s|;
    var init, last := s[..n - 1], s[n - 1];
    assert s == init + [last];
    CollapseFromAppend(init, [last], false);
    var tail := CollapseFrom([last], EndsInRun(init, false));
    assert CollapseFrom([last], EndsInRun(init, false)) ==
      (if IsSpace(last) then (if EndsInRun(init, false) then [] else "-") else [last]) +
      CollapseFrom([], IsSpace(last));
    if IsSpace(last) && EndsInRun(init, false) {
      // the run that ends `s` started earlier and already produced its `-`
      assert init != [] && IsSpace(init[|init| - 1]);
      CollapseSpacesLast(init);
    }
  }

  /** Collapsing introduces no character other than `-`. */
  lemma {:induction false} CollapseFromChars(s: string, inRun: bool, c: char)
    requires c != '-' && c in CollapseFrom(s, inRun)
    ensures c in s
  {
    if c != s[0] {
      CollapseFromChars(s[1..], IsSpace(s[0]), c);
      var j :| 0 <= j < |s[1..]| && s[1..][j] == c;
      assert s[j + 1] == c;
    }
  }

  lemma CollapseSpacesNoSpace(s: string)
    ensures NoSpace(CollapseSpaces(s))
  {
    CollapseFromNoSpace(s, false);
  }

  lemma CollapseSpacesChars(s: string, c: char)
    requires c != '-' && c in CollapseSpaces(s)
    ensures c in s
  {
    CollapseFromChars(s, false, c);
  }

  lemma CollapseSpacesNoUpper(s: string)
    requires NoUpper(s)
    ensures NoUpper(CollapseSpaces(s))
  {
    var r := CollapseSpaces(s);
    forall i | 0 <= i < |r| ensures !IsUpperAscii(r[i]) {
      if r[i] != '-' {
        CollapseSpacesChars(s, r[i]);
        var j :| 0 <= j < |s| && s[j] == r[i];
      }
    }
  }

  /** Without whitespace there is nothing to collapse. */
  lemma {:induction false} CollapseFromFixesSpaceFree(s: string, inRun: bool)
    requires NoSpace(s)
    ensures CollapseFrom(s, inRun) == s
  {
    if s != [] {
      CollapseFromFixesSpaceFree(s[1..], false);
    }
  }

  lemma CollapseSpacesFixesSpaceFree(s: string)
    requires NoSpace(s)
    ensures CollapseSpaces(s) == s
  {
    CollapseFromFixesSpaceFree(s, false);
  }

  /** A run of whitespace, however long, becomes exactly one `-`. */
  lemma CollapseSpaceRun(w: string)
    requires w != [] && forall i :: 0 <= i < |w| ==> IsSpace(w[i])
    ensures CollapseSpaces(w) == "-"
  {
    CollapseFromRunInside(w[1..]);
    assert CollapseFrom(w, false) == "-" + CollapseFrom(w[1..], true);
  }

  lemma {:induction false} CollapseFromRunInside(w: string)
    requires forall i :: 0 <= i < |w| ==> IsSpace(w[i])
    ensures CollapseFrom(w, true) == []
  {
    if w != [] {
      CollapseFromRunInside(w[1..]);
    }
  }

  /** Runs are collapsed independently: splitting the input anywhere except inside a
      whitespace run splits the output at the same place. Together with
      CollapseSpaceRun and CollapseSpacesFixesSpaceFree this determines CollapseSpaces. */
  lemma CollapseSpacesAppend(a: string, b: string)
    requires a == [] || b == [] || !IsSpace(a[|a| - 1]) || !IsSpace(b[0])
    ensures CollapseSpaces(a + b) == CollapseSpaces(a) + CollapseSpaces(b)
  {
    CollapseFromAppend(a, b, false);
    if EndsInRun(a, false) {
      CollapseFromStateIrrelevant(b);
    }
  }

  // ----------------------------------------------------------------------------
  // trim

  /** `s` without its leading whitespace. */
  function TrimStart(s: string): (r: string)
    ensures |r| <= |s|
  {
    if s != [] && IsSpace(s[0]) then TrimStart(s[1..]) else s
  }

  /** TrimStart removes a prefix of whitespace and stops at the first other character. */
  lemma {:induction false} TrimStartSpec(s: string)
    ensures var r := TrimStart(s);
      r == s[|s| - |r|..] &&
      (forall i :: 0 <= i < |s| - |r| ==> IsSpace(s[i])) &&
      (r == [] || !IsSpace(r[0]))
  {
    if s != [] && IsSpace(s[0]) {
      TrimStartSpec(s[1..]);
    }
  }

  /** `s` without its trailing whitespace. */
  function TrimEnd(s: string): (r: string)
    ensures |r| <= |s|
  {
    if s != [] && IsSpace(s[|s| - 1]) then TrimEnd(s[..|s| - 1]) else s
  }

  /** TrimEnd removes a suffix of whitespace and stops at the last other character. */
  lemma {:induction false} TrimEndSpec(s: string)
    ensures var r := TrimEnd(s);
      r == s[..|r|] &&
      (forall i :: |r| <= i < |s| ==> IsSpace(s[i])) &&
      (r == [] || !IsSpace(r[|r| - 1]))
  {
    if s != [] && IsSpace(s[|s| - 1]) {
      TrimEndSpec(s[..|s| - 1]);
    }
  }

  /** `String.prototype.trim`: `s` without its leading and trailing whitespace. */
  function Trim(s: string): (r: string)
    ensures |r| <= |s|
    ensures r != [] ==> !IsSpace(r[0]) && !IsSpace(r[|r| - 1])
  {
    var t := TrimStart(s);
    TrimStartSpec(s);
    TrimEndSpec(t);
    var r := TrimEnd(t);
    assert r != [] ==> r[0] == t[0];
    r
  }

  /** What `trim` promises: the result is empty exactly when `s` is all whitespace,
      otherwise it starts and ends with a non-whitespace character, and it is the infix
      of `s` left once the leading and the trailing whitespace are removed. */
  lemma TrimSpec(s: string)
    ensures var r := Trim(s);
      (r == [] <==> forall i :: 0 <= i < |s| ==> IsSpace(s[i])) &&
      (r != [] ==> !IsSpace(r[0]) && !IsSpace(r[|r| - 1])) &&
      var k := |s| - |TrimStart(s)|;
      k + |r| <= |s| && r == s[k..k + |r|] &&
      (forall i :: 0 <= i < k ==> IsSpace(s[i])) &&
      (forall i :: k + |r| <= i < |s| ==> IsSpace(s[i]))
  {
    TrimInfix(s);
    TrimEnds(s);
    TrimEmptyIff(s);
  }

  lemma TrimInfix(s: string)
    ensures var r := Trim(s);
      var k := |s| - |TrimStart(s)|;
      k + |r| <= |s| && r == s[k..k + |r|] &&
      (forall i :: 0 <= i < k ==> IsSpace(s[i])) &&
      (forall i :: k + |r| <= i < |s| ==> IsSpace(s[i]))
  {
    var t := TrimStart(s);
    TrimStartSpec(s);
    TrimEndSpec(t);
    TrimmedSlice(s, t, TrimEnd(t));
  }

  lemma TrimEnds(s: string)
    ensures var r := Trim(s);
      r != [] ==> !IsSpace(r[0]) && !IsSpace(r[|r| - 1])
  {
    var t := TrimStart(s);
    var r := TrimEnd(t);
    TrimStartSpec(s);
    TrimEndSpec(t);
    if r != [] {
      assert r[0] == t[0];
    }
  }

  lemma TrimEmptyIff(s: string)
    ensures Trim(s) == [] <==> forall i :: 0 <= i < |s| ==> IsSpace(s[i])
  {
    var t := TrimStart(s);
    var r := TrimEnd(t);
    var k := |s| - |t|;
    TrimInfix(s);
    TrimEnds(s);
    if r != [] {
      assert r[|r| - 1] == s[k + |r| - 1];
    } else {
      TrimStartSpec(s);
      TrimEndSpec(t);
      assert t == [];
    }
  }

  /** The infix left by trimming a suffix `t` of `s` down to a prefix `r` of `t`. */
  lemma TrimmedSlice(s: string, t: string, r: string)
    requires |t| <= |s| && t == s[|s| - |t|..]
    requires |r| <= |t| && r == t[..|r|]
    requires forall i :: |r| <= i < |t| ==> IsSpace(t[i])
    ensures var k := |s| - |t|;
      r == s[k..k + |r|] && forall i :: k + |r| <= i < |s| ==> IsSpace(s[i])
  {
    var k := |s| - |t|;
    forall i | k + |r| <= i < |s| ensures IsSpace(s[i]) {
      assert s[i] == t[i - k];
    }
  }

  /** Trimming a trimmed string changes nothing. */
  lemma TrimIdempotent(s: string)
    ensures Trim(Trim(s)) == Trim(s)
  {
    var r := Trim(s);
    TrimSpec(s);
    TrimFixesTrimmed(r);
  }

  lemma TrimFixesTrimmed(s: string)
    requires s == [] || (!IsSpace(s[0]) && !IsSpace(s[|s| - 1]))
    ensures Trim(s) == s
  {
    assert TrimStart(s) == s;
    if s != [] {
      assert TrimEnd(s) == s;
    }
  }

  // ----------------------------------------------------------------------------
  // Array.prototype.join

  function Join(parts: seq<string>, sep: string): (r: string)
    ensures parts == [] ==> r == []
    ensures |parts| > 0 ==> parts[0] <= r
    ensures |parts| == 1 ==> r == parts[0]
  {
    if parts == [] then []
    else if |parts| == 1 then parts[0]
    else parts[0] + sep + Join(parts[1..], sep)
  }

  /** Joining two non-empty lists of parts puts exactly one separator between them. */
  lemma {:induction false} JoinAppend(a: seq<string>, b: seq<string>, sep: string)
    requires a != [] && b != []
    ensures Join(a + b, sep) == Join(a, sep) + sep + Join(b, sep)
  {
    var ab := a + b;
    assert ab[0] == a[0] && ab[1..] == a[1..] + b;
    if |a| == 1 {
      assert a[1..] + b == b;
    } else {
      JoinAppend(a[1..], b, sep);
    }
  }
}
