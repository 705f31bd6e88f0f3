/**
 * The lexicographic token selector of `lexi_quadrilateral.py`.
 *
 * Every line of the text is scanned left to right with a window of `wordLength`
 * characters. A window made only of ASCII letters and digits is a candidate; a
 * candidate that overlaps the last token kept on its line replaces that token only
 * when it is lexicographically greater. After each line the tokens kept on it are
 * merged into the result, which is stable-sorted by descending text and cut to
 * `wordCount` entries. The (line, index) pairs of the result are the vertices of
 * the quadrilateral.
 */
module LexiQuadrilateral {
  import opened Common
  import opened Sorting
  import opened Geometry

  /** A selected substring with the line it was found on and its starting index there. */
  datatype Token = Token(text: string, line: nat, col: nat)

  // ---------------------------------------------------------------------------
  // Characters and windows

  /** The regular-expression class `[a-zA-Z0-9]`. */
  predicate IsAsciiAlnum(c: char)
  {
    ('a' <= c <= 'z') || ('A' <= c <= 'Z') || ('0' <= c <= '9')
  }

  predicate AllAsciiAlnum(s: string)
  {
    forall i :: 0 <= i < |s| ==> IsAsciiAlnum(s[i])
  }

  /**
   * `re.match(r'^[a-zA-Z0-9]+$', s)`: one or more ASCII letters or digits, where `$`
   * also matches just before a final newline.
   */
  predicate IsStrictlyAlphanumeric(s: string)
  {
    (|s| > 0 && AllAsciiAlnum(s)) ||
    (|s| > 1 && s[|s| - 1] == '\n' && AllAsciiAlnum(s[..|s| - 1]))
  }

  /** The test a window must pass to be a candidate. */
  predicate ValidWindow(s: string)
  {
    IsStrictlyAlphanumeric(s) && '\n' !in s
  }

  /** Together with the newline test, the pattern accepts exactly the non-empty ASCII-alphanumeric strings. */
  lemma ValidWindowIff(s: string)
    ensures ValidWindow(s) <==> |s| > 0 && AllAsciiAlnum(s)
  {
    if |s| > 1 && s[|s| - 1] == '\n' {
      assert '\n' in s;
    }
  }

  /**
   * `_non_alpanum_index`: the index of the first character that is not alphanumeric
   * or lies beyond 'z' (code point 122), and 0 when there is none. Below 123,
   * Python's `isalnum` holds exactly of the ASCII letters and digits, so the test is
   * `!IsAsciiAlnum`.
   */
  method FirstBadIndex(substr: string) returns (idx: nat)
    ensures !AllAsciiAlnum(substr) ==>
      idx < |substr| && !IsAsciiAlnum(substr[idx]) && AllAsciiAlnum(substr[..idx])
    ensures AllAsciiAlnum(substr) ==> idx == 0
  {
    for i := 0 to |substr|
      invariant AllAsciiAlnum(substr[..i])
    {
      if !IsAsciiAlnum(substr[i]) {
        return i;
      }
    }
    return 0;
  }

  // ---------------------------------------------------------------------------
  // Python's string order

  /** `a < b` on Python strings: code point by code point, a proper prefix first. */
  predicate StrLess(a: string, b: string)
  {
    if a == [] then b != []
    else if b == [] then false
    else a[0] < b[0] || (a[0] == b[0] && StrLess(a[1..], b[1..]))
  }

  lemma {:induction false} StrLessIrreflexive(a: string)
    ensures !StrLess(a, a)
  {
    if a != [] {
      StrLessIrreflexive(a[1..]);
    }
  }

  lemma {:induction false} StrLessTransitive(a: string, b: string, c: string)
    requires StrLess(a, b) && StrLess(b, c)
    ensures StrLess(a, c)
  {
    if a != [] && a[0] == b[0] && b[0] == c[0] {
      StrLessTransitive(a[1..], b[1..], c[1..]);
    }
  }

  lemma {:induction false} StrLessConnected(a: string, b: string)
    requires a != b
    ensures StrLess(a, b) || StrLess(b, a)
  {
    if a != [] && b != [] && a[0] == b[0] {
      assert a == [a[0]] + a[1..] && b == [b[0]] + b[1..];
      StrLessConnected(a[1..], b[1..]);
    }
  }

  /** `b` comes before `a`; with `reverse=True` the greater text is placed first. */
  predicate TextAfter(a: string, b: string)
  {
    StrLess(b, a)
  }

  /** Descending string order is a strict total order, so the stable-sort lemmas apply. */
  lemma TextAfterIsStrictTotalOrder()
    ensures StrictTotalOrder(TextAfter)
  {
    forall a: string
      ensures !TextAfter(a, a)
    {
      StrLessIrreflexive(a);
    }
    forall a: string, b: string, c: string | TextAfter(a, b) && TextAfter(b, c)
      ensures TextAfter(a, c)
    {
      StrLessTransitive(c, b, a);
    }
    forall a: string, b: string | a != b
      ensures TextAfter(a, b) || TextAfter(b, a)
    {
      StrLessConnected(a, b);
    }
  }

  /** "Not less than" is transitive. */
  lemma NotStrLessTransitive(a: string, b: string, c: string)
    requires !StrLess(a, b) && !StrLess(b, c)
    ensures !StrLess(a, c)
  {
    if StrLess(a, c) {
      if a != b {
        StrLessConnected(a, b);
      }
      if b != c {
        StrLessConnected(b, c);
      }
      if a == b {
        StrLessIrreflexive(a);
      } else if b == c {
        StrLessIrreflexive(a);
        StrLessTransitive(b, a, c);
      } else {
        StrLessTransitive(c, b, a);
        StrLessTransitive(a, c, a);
        StrLessIrreflexive(a);
      }
    }
  }

  // ---------------------------------------------------------------------------
  // One line: the specification of the scan

  function Last<T>(s: seq<T>): T
    requires s != []
  {
    s[|s| - 1]
  }

  /**
   * A candidate offered to the tokens kept so far on its line: kept when there is
   * none, compared with the last kept one when it starts less than `wl` characters
   * after it, appended otherwise.
   */
  function Offer(kept: seq<Token>, tok: Token, wl: nat): seq<Token>
  {
    if kept == [] then [tok]
    else if Abs(tok.col - Last(kept).col) < wl then
      if StrLess(Last(kept).text, tok.text) then kept[..|kept| - 1] + [tok] else kept
    else kept + [tok]
  }

  /** The window of `wl` characters starting at `i` exists and is a candidate. */
  predicate CandidateAt(line: string, wl: nat, i: nat)
  {
    i + wl <= |line| && ValidWindow(line[i..i + wl])
  }

  /** The tokens kept after every window starting before `n` has been offered in turn. */
  function KeptUpTo(line: string, lineId: nat, wl: nat, n: nat): seq<Token>
    requires n <= |line|
  {
    if n == 0 then []
    else
      var prev := KeptUpTo(line, lineId, wl, n - 1);
      if CandidateAt(line, wl, n - 1) then Offer(prev, Token(line[n - 1..n - 1 + wl], lineId, n - 1), wl)
      else prev
  }

  /** The tokens a line contributes. */
  function LineKept(line: string, lineId: nat, wl: nat): seq<Token>
  {
    KeptUpTo(line, lineId, wl, |line|)
  }

  /** A window that contains a character outside `[a-zA-Z0-9]` is not a candidate. */
  lemma WindowWithBadCharInvalid(line: string, wl: nat, j: nat, p: nat)
    requires j + wl <= |line| && j <= p < j + wl
    requires !IsAsciiAlnum(line[p])
    ensures !CandidateAt(line, wl, j)
  {
    var w := line[j..j + wl];
    assert w[p - j] == line[p];
    ValidWindowIff(w);
  }

  /**
   * The skip-ahead is safe: when the window at `i` has its first bad character at
   * offset `k`, every window starting from `i` to `i + k` contains that character,
   * so jumping to `i + k + 1` skips no candidate.
   */
  lemma {:induction false} SkipAheadSafe(line: string, lineId: nat, wl: nat, i: nat, k: nat, m: nat)
    requires i + wl <= |line| && k < wl
    requires !IsAsciiAlnum(line[i + k])
    requires i <= m <= i + k + 1
    ensures KeptUpTo(line, lineId, wl, m) == KeptUpTo(line, lineId, wl, i)
  {
    forall j | i <= j < m
      ensures !CandidateAt(line, wl, j)
    {
      NoCandidateNearBad(line, wl, i, k, j);
    }
    KeptUpToUnchanged(line, lineId, wl, i, m);
  }

  /** Every window starting from `i` to `i + k` contains the bad character at `i + k`. */
  lemma NoCandidateNearBad(line: string, wl: nat, i: nat, k: nat, j: nat)
    requires i + wl <= |line| && k < wl
    requires !IsAsciiAlnum(line[i + k])
    requires i <= j <= i + k
    ensures !CandidateAt(line, wl, j)
  {
    if j + wl <= |line| {
      WindowWithBadCharInvalid(line, wl, j, i + k);
    }
  }

  /** A stretch of windows none of which is a candidate leaves the kept tokens as they were. */
  lemma {:induction false} KeptUpToUnchanged(line: string, lineId: nat, wl: nat, i: nat, m: nat)
    requires i <= m <= |line|
    requires forall j :: i <= j < m ==> !CandidateAt(line, wl, j)
    ensures KeptUpTo(line, lineId, wl, m) == KeptUpTo(line, lineId, wl, i)
  {
    if m > i {
      KeptUpToUnchanged(line, lineId, wl, i, m - 1);
      KeptUpToSkip(line, lineId, wl, m);
    }
  }

  /** The scan position `c` clipped to the end of the line: past it there is no window left. */
  function Clip(c: nat, line: string): nat
  {
    if c <= |line| then c else |line|
  }

  /**
   * The skip of lines 203-205 on a window that is not a candidate (`bad` is what
   * `_non_alpanum_index` returns for it) leaves the kept tokens as they were; it
   * moves past the end of the line only for windows of length 0.
   */
  lemma SkipWindow(line: string, lineId: nat, wl: nat, c: nat, bad: nat)
    requires c + wl <= |line| && !ValidWindow(line[c..c + wl])
    requires !AllAsciiAlnum(line[c..c + wl]) ==> bad < wl && !IsAsciiAlnum(line[c..c + wl][bad])
    requires AllAsciiAlnum(line[c..c + wl]) ==> bad == 0
    ensures wl > 0 ==> c + bad + 1 <= |line|
    ensures c + bad + 1 <= |line| + 1
    ensures KeptUpTo(line, lineId, wl, Clip(c + bad + 1, line)) == KeptUpTo(line, lineId, wl, c)
  {
    ValidWindowIff(line[c..c + wl]);
    if wl == 0 {
      KeptUpToEmptyWindows(line, lineId, c);
      KeptUpToEmptyWindows(line, lineId, Clip(c + 1, line));
    } else {
      SkipPastFirstBad(line, lineId, wl, c, bad);
    }
  }

  /** Windows of length 0 are never candidates, so nothing is kept. */
  lemma KeptUpToEmptyWindows(line: string, lineId: nat, n: nat)
    requires n <= |line|
    ensures KeptUpTo(line, lineId, 0, n) == []
  {
    forall j | 0 <= j < n
      ensures !CandidateAt(line, 0, j)
    {
      assert line[j..j] == [];
    }
    KeptUpToUnchanged(line, lineId, 0, 0, n);
  }

  /** The window at `n` is offered to the tokens kept before it. */
  lemma KeptUpToStep(line: string, lineId: nat, wl: nat, n: nat)
    requires n + wl <= |line| && n < |line|
    requires IsStrictlyAlphanumeric(line[n..n + wl]) && '\n' !in line[n..n + wl]
    ensures KeptUpTo(line, lineId, wl, n + 1) ==
      Offer(KeptUpTo(line, lineId, wl, n), Token(line[n..n + wl], lineId, n), wl)
  {
    assert CandidateAt(line, wl, n);
  }

  /** Jumping past the first bad character of the window at `i` leaves the kept tokens as they were. */
  lemma SkipPastFirstBad(line: string, lineId: nat, wl: nat, i: nat, k: nat)
    requires i + wl <= |line|
    requires k < wl && !IsAsciiAlnum(line[i..i + wl][k])
    ensures i + k + 1 <= |line|
    ensures KeptUpTo(line, lineId, wl, i + k + 1) == KeptUpTo(line, lineId, wl, i)
  {
    assert line[i..i + wl][k] == line[i + k];
    SkipAheadSafe(line, lineId, wl, i, k, i + k + 1);
  }

  /** A window that is not a candidate leaves the kept tokens as they were. */
  lemma KeptUpToSkip(line: string, lineId: nat, wl: nat, n: nat)
    requires 0 < n <= |line| && !CandidateAt(line, wl, n - 1)
    ensures KeptUpTo(line, lineId, wl, n) == KeptUpTo(line, lineId, wl, n - 1)
  {
  }

  /** Windows that would run past the end of the line are never offered. */
  lemma {:induction false} KeptUpToPastLastWindow(line: string, lineId: nat, wl: nat, n: nat)
    requires |line| < n + wl && n <= |line|
    ensures KeptUpTo(line, lineId, wl, n) == LineKept(line, lineId, wl)
  {
    var m := |line|;
    while m > n
      invariant n <= m <= |line|
      invariant KeptUpTo(line, lineId, wl, m) == LineKept(line, lineId, wl)
    {
      m := m - 1;
    }
  }

  // ---------------------------------------------------------------------------
  // One line: the scan

  /** Lines 194-201: the candidate `tok` offered to the tokens kept so far on its line. */
  method OfferToken(topk: seq<Token>, tok: Token, wordLength: nat) returns (kept: seq<Token>)
    ensures kept == Offer(topk, tok, wordLength)
  {
    kept := topk;
    if |kept| == 0 {
      kept := kept + [tok];
    } else if Abs(tok.col - kept[|kept| - 1].col) < wordLength {
      if StrLess(kept[|kept| - 1].text, tok.text) {
        kept := kept[..|kept| - 1];
        kept := kept + [tok];
      }
    } else {
      kept := kept + [tok];
    }
  }

  /** The inner `while` loop: scans one line and returns the tokens kept on it. */
  method ScanLine(lineStr: string, lineId: nat, wordLength: nat) returns (topk: seq<Token>)
    ensures topk == LineKept(lineStr, lineId, wordLength)
  {
    var chId := 0;
    topk := [];
    while chId <= |lineStr| - wordLength
      invariant chId <= |lineStr| + 1
      invariant wordLength > 0 ==> chId <= |lineStr|
      invariant topk == KeptUpTo(lineStr, lineId, wordLength, Clip(chId, lineStr))
      decreases |lineStr| + 1 - chId
    {
      var substr := lineStr[chId..chId + wordLength];
      if IsStrictlyAlphanumeric(substr) && '\n' !in substr {
        topk := OfferToken(topk, Token(substr, lineId, chId), wordLength);
        ValidWindowIff(substr);
        KeptUpToStep(lineStr, lineId, wordLength, chId);
        chId := chId + 1;
      } else {
        var bad := FirstBadIndex(substr);
        SkipWindow(lineStr, lineId, wordLength, chId, bad);
        chId := chId + bad;
        chId := chId + 1;
      }
    }
    if wordLength > 0 {
      KeptUpToPastLastWindow(lineStr, lineId, wordLength, chId);
    }
  }

  // ---------------------------------------------------------------------------
  // One line: what the kept tokens satisfy

  /** `t` is the window of `wl` ASCII letters and digits at `t.col` of `line`. */
  predicate WindowOf(line: string, wl: nat, t: Token)
  {
    t.col + wl <= |line| && t.text == line[t.col..t.col + wl] && AllAsciiAlnum(t.text)
  }

  /** The tokens kept on a line before index `n`: windows of that line, each at least `wl` after the previous one. */
  ghost predicate KeptShape(line: string, lineId: nat, wl: nat, n: nat, kept: seq<Token>)
  {
    && KeptWindows(line, lineId, wl, n, kept)
    && (forall i, j :: 0 <= i < j < |kept| ==> kept[i].col + wl <= kept[j].col)
  }

  /** Start indices at least `wl` apart stay so when a token starting at least `wl` after the last is appended. */
  lemma AppendKeepsSpacing(kept: seq<Token>, tok: Token, wl: nat)
    requires forall i, j :: 0 <= i < j < |kept| ==> kept[i].col + wl <= kept[j].col
    requires kept != [] ==> Last(kept).col + wl <= tok.col
    ensures forall i, j :: 0 <= i < j < |kept + [tok]| ==> (kept + [tok])[i].col + wl <= (kept + [tok])[j].col
  {
    var r := kept + [tok];
    forall i, j | 0 <= i < j < |r|
      ensures r[i].col + wl <= r[j].col
    {
      if j == |kept| && i < |kept| - 1 {
        assert kept[i].col + wl <= kept[|kept| - 1].col;
      }
    }
  }

  /** An offer keeps the tokens, appends the candidate, or replaces the last token by it. */
  lemma OfferForms(kept: seq<Token>, tok: Token, wl: nat)
    ensures || Offer(kept, tok, wl) == kept
            || (Offer(kept, tok, wl) == kept + [tok] && (kept != [] ==> Abs(tok.col - Last(kept).col) >= wl))
            || (kept != [] && Offer(kept, tok, wl) == kept[..|kept| - 1] + [tok])
  {
  }

  /**
   * A candidate starting `wl` or more characters after the last kept token does not
   * overlap it and is appended, so two tokens exactly `wl` apart are both kept.
   */
  lemma OfferApart(kept: seq<Token>, tok: Token, wl: nat)
    requires kept != [] && Last(kept).col + wl <= tok.col
    ensures Offer(kept, tok, wl) == kept + [tok]
  {
  }

  /** Every token kept before `n` is a window of the line that starts before `n`. */
  ghost predicate KeptWindows(line: string, lineId: nat, wl: nat, n: nat, kept: seq<Token>)
  {
    forall t :: t in kept ==> t.line == lineId && t.col < n && WindowOf(line, wl, t)
  }

  lemma OfferKeepsWindows(line: string, lineId: nat, wl: nat, n: nat, kept: seq<Token>, tok: Token)
    requires tok.line == lineId && tok.col < n && WindowOf(line, wl, tok)
    requires KeptWindows(line, lineId, wl, n, kept)
    ensures KeptWindows(line, lineId, wl, n, Offer(kept, tok, wl))
  {
    OfferForms(kept, tok, wl);
    if kept != [] {
      assert forall t :: t in kept[..|kept| - 1] ==> t in kept;
    }
  }

  lemma OfferKeepsSpacing(kept: seq<Token>, tok: Token, wl: nat)
    requires forall i, j :: 0 <= i < j < |kept| ==> kept[i].col + wl <= kept[j].col
    requires kept != [] ==> Last(kept).col < tok.col
    ensures forall i, j :: 0 <= i < j < |Offer(kept, tok, wl)| ==>
      Offer(kept, tok, wl)[i].col + wl <= Offer(kept, tok, wl)[j].col
  {
    OfferForms(kept, tok, wl);
    var r := Offer(kept, tok, wl);
    if r == kept {
    } else if r == kept + [tok] && (kept != [] ==> Abs(tok.col - Last(kept).col) >= wl) {
      AppendKeepsSpacing(kept, tok, wl);
    } else {
      var init := kept[..|kept| - 1];
      if init != [] {
        assert Last(init).col + wl <= Last(kept).col;
      }
      AppendKeepsSpacing(init, tok, wl);
    }
  }

  lemma OfferKeepsShape(line: string, lineId: nat, wl: nat, n: nat, kept: seq<Token>)
    requires 0 < n <= |line| && CandidateAt(line, wl, n - 1)
    requires KeptShape(line, lineId, wl, n - 1, kept)
    ensures KeptShape(line, lineId, wl, n, Offer(kept, Token(line[n - 1..n - 1 + wl], lineId, n - 1), wl))
  {
    var tok := Token(line[n - 1..n - 1 + wl], lineId, n - 1);
    assert WindowOf(line, wl, tok) by {
      ValidWindowIff(tok.text);
    }
    assert KeptWindows(line, lineId, wl, n, kept);
    OfferKeepsWindows(line, lineId, wl, n, kept, tok);
    if kept != [] {
      assert Last(kept) in kept;
    }
    OfferKeepsSpacing(kept, tok, wl);
  }

  lemma {:induction false} KeptUpToShape(line: string, lineId: nat, wl: nat, n: nat)
    requires n <= |line|
    ensures KeptShape(line, lineId, wl, n, KeptUpTo(line, lineId, wl, n))
  {
    if n > 0 {
      KeptUpToShape(line, lineId, wl, n - 1);
      if CandidateAt(line, wl, n - 1) {
        OfferKeepsShape(line, lineId, wl, n, KeptUpTo(line, lineId, wl, n - 1));
      }
    }
  }

  /**
   * Every token a line contributes is a window of ASCII letters and digits of that
   * line, and the kept start indices increase by at least `wl` from one token to the
   * next; `OfferApart` shows that a gap of exactly `wl` is allowed.
   */
  lemma LineKeptShape(line: string, lineId: nat, wl: nat)
    ensures forall t :: t in LineKept(line, lineId, wl) ==> t.line == lineId && WindowOf(line, wl, t)
    ensures forall i, j :: 0 <= i < j < |LineKept(line, lineId, wl)| ==>
      LineKept(line, lineId, wl)[i].col + wl <= LineKept(line, lineId, wl)[j].col
  {
    KeptUpToShape(line, lineId, wl, |line|);
  }

  /**
   * A candidate that overlaps the last kept token either replaces it, when its text
   * is strictly greater, or is dropped; the two are never both kept, and the one
   * kept is the greater, the earlier on a tie.
   */
  lemma OfferOverlapping(kept: seq<Token>, tok: Token, wl: nat)
    requires kept != [] && Last(kept).col < tok.col < Last(kept).col + wl
    ensures |Offer(kept, tok, wl)| == |kept|
    ensures Offer(kept, tok, wl)[..|kept| - 1] == kept[..|kept| - 1]
    ensures StrLess(Last(kept).text, tok.text) <==> Last(Offer(kept, tok, wl)) == tok
    ensures !StrLess(Last(kept).text, tok.text) <==> Last(Offer(kept, tok, wl)) == Last(kept)
    ensures !StrLess(Last(Offer(kept, tok, wl)).text, tok.text)
    ensures !StrLess(Last(Offer(kept, tok, wl)).text, Last(kept).text)
  {
    if StrLess(Last(kept).text, tok.text) {
      StrLessIrreflexive(tok.text);
      if tok.text != Last(kept).text {
        StrLessConnected(tok.text, Last(kept).text);
        if StrLess(tok.text, Last(kept).text) {
          StrLessTransitive(tok.text, Last(kept).text, tok.text);
        }
      }
    } else {
      StrLessIrreflexive(Last(kept).text);
    }
  }

  /** After an offer, the candidate and every token kept before are matched by a kept token at least as great. */
  lemma OfferDominates(kept: seq<Token>, tok: Token, wl: nat)
    ensures exists t :: t in Offer(kept, tok, wl) && !StrLess(t.text, tok.text)
    ensures forall u :: u in kept ==> exists t :: t in Offer(kept, tok, wl) && !StrLess(t.text, u.text)
  {
    var r := Offer(kept, tok, wl);
    if kept != [] && Abs(tok.col - Last(kept).col) < wl {
      if StrLess(Last(kept).text, tok.text) {
        StrLessIrreflexive(tok.text);
        if tok.text != Last(kept).text {
          StrLessConnected(tok.text, Last(kept).text);
          if StrLess(tok.text, Last(kept).text) {
            StrLessTransitive(tok.text, Last(kept).text, tok.text);
          }
        }
      } else {
        StrLessIrreflexive(Last(kept).text);
      }
      assert Last(r) in r;
      forall u | u in kept
        ensures exists t :: t in r && !StrLess(t.text, u.text)
      {
        var i :| 0 <= i < |kept| && kept[i] == u;
        if i < |kept| - 1 {
          assert r[i] == u;
          StrLessIrreflexive(u.text);
        }
      }
    } else {
      assert tok in r;
      StrLessIrreflexive(tok.text);
      forall u | u in kept
        ensures exists t :: t in r && !StrLess(t.text, u.text)
      {
        assert u in r;
        StrLessIrreflexive(u.text);
      }
    }
  }

  /** Every candidate offered before `n` is matched by a kept token whose text is at least as great. */
  lemma {:induction false} KeptUpToDominates(line: string, lineId: nat, wl: nat, n: nat)
    requires n <= |line|
    ensures forall i :: 0 <= i < n && CandidateAt(line, wl, i) ==>
      exists t :: t in KeptUpTo(line, lineId, wl, n) && !StrLess(t.text, line[i..i + wl])
  {
    if n > 0 {
      KeptUpToDominates(line, lineId, wl, n - 1);
      var prev := KeptUpTo(line, lineId, wl, n - 1);
      var r := KeptUpTo(line, lineId, wl, n);
      if CandidateAt(line, wl, n - 1) {
        var tok := Token(line[n - 1..n - 1 + wl], lineId, n - 1);
        OfferDominates(prev, tok, wl);
        forall i | 0 <= i < n && CandidateAt(line, wl, i)
          ensures exists t :: t in r && !StrLess(t.text, line[i..i + wl])
        {
          if i < n - 1 {
            var u :| u in prev && !StrLess(u.text, line[i..i + wl]);
            var t :| t in r && !StrLess(t.text, u.text);
            NotStrLessTransitive(t.text, u.text, line[i..i + wl]);
          }
        }
      }
    }
  }

  /** No candidate of the line is lost to a smaller one: some kept token is at least as great. */
  lemma LineKeptDominates(line: string, lineId: nat, wl: nat)
    ensures forall i: nat :: CandidateAt(line, wl, i) ==>
      exists t :: t in LineKept(line, lineId, wl) && !StrLess(t.text, line[i..i + wl])
  {
    forall i: nat | CandidateAt(line, wl, i)
      ensures i < |line|
    {
      ValidWindowIff(line[i..i + wl]);
    }
    KeptUpToDominates(line, lineId, wl, |line|);
  }

  // ---------------------------------------------------------------------------
  // All lines: merging into the result

  function TextOf(t: Token): string
  {
    t.text
  }

  /** Encounter order: an earlier line, or the same line and an earlier index. */
  predicate EncounterBefore(a: Token, b: Token)
  {
    a.line < b.line || (a.line == b.line && a.col < b.col)
  }

  /** Python's `s[:n]`: the first `n` elements, or for a negative `n` all but the last `-n`. */
  function Take<T>(s: seq<T>, n: int): (r: seq<T>)
    ensures r <= s
    ensures n >= 0 ==> |r| == if n < |s| then n else |s|
    ensures n < 0 ==> |r| == if |s| + n > 0 then |s| + n else 0
  {
    if n >= 0 then (if n < |s| then s[..n] else s)
    else if |s| + n > 0 then s[..|s| + n] else []
  }

  /** `sorted(result + kept, key=text, reverse=True)[:wordCount]`. */
  function Merge(result: seq<Token>, kept: seq<Token>, wordCount: int): seq<Token>
  {
    Take(SortBy(result + kept, TextOf, TextAfter), wordCount)
  }

  /** The result after the first `n` lines. */
  function MergedUpTo(fileTxt: seq<string>, wl: nat, wordCount: int, n: nat): seq<Token>
    requires n <= |fileTxt|
  {
    if n == 0 then []
    else Merge(MergedUpTo(fileTxt, wl, wordCount, n - 1), LineKept(fileTxt[n - 1], n - 1, wl), wordCount)
  }

  /** What `fetch_highlexi_str_with_loc` returns. */
  function HighLexi(fileTxt: seq<string>, wl: nat, wordCount: int): seq<Token>
  {
    MergedUpTo(fileTxt, wl, wordCount, |fileTxt|)
  }

  /** `t` is a window of ASCII letters and digits, `wl` long, of a line of the text. */
  predicate TokenOf(fileTxt: seq<string>, wl: nat, t: Token)
  {
    t.line < |fileTxt| && WindowOf(fileTxt[t.line], wl, t)
  }

  /** Two tokens of the same line start at least `wl` apart. */
  ghost predicate Apart(s: seq<Token>, wl: nat)
  {
    forall a, b :: a in s && b in s && a.line == b.line && a.col != b.col ==> Abs(a.col - b.col) >= wl
  }

  /** What the result satisfies after the first `n` lines. */
  ghost predicate ResultShape(fileTxt: seq<string>, wl: nat, wordCount: int, n: nat, r: seq<Token>)
  {
    && (wordCount >= 0 ==> |r| <= wordCount)
    && SortedBy(r, TextOf, TextAfter)
    && TiesOrdered(r, TextOf, EncounterBefore)
    && (forall t :: t in r ==> t.line < n && TokenOf(fileTxt, wl, t) && t in LineKept(fileTxt[t.line], t.line, wl))
    && Apart(r, wl)
  }

  /** Appending the tokens of a later line keeps equal texts in encounter order and same-line tokens apart. */
  lemma AppendLineShape(result: seq<Token>, kept: seq<Token>, n: nat, wl: nat)
    requires wl >= 1
    requires TiesOrdered(result, TextOf, EncounterBefore) && Apart(result, wl)
    requires forall t :: t in result ==> t.line < n
    requires forall t :: t in kept ==> t.line == n
    requires forall i, j :: 0 <= i < j < |kept| ==> kept[i].col + wl <= kept[j].col
    ensures TiesOrdered(result + kept, TextOf, EncounterBefore)
    ensures Apart(result + kept, wl)
  {
    var s := result + kept;
    forall i, j | 0 <= i < j < |s| && TextOf(s[i]) == TextOf(s[j])
      ensures EncounterBefore(s[i], s[j])
    {
      if j < |result| {
        assert s[i] == result[i] && s[j] == result[j];
      } else if i < |result| {
        assert s[i] in result && s[j] in kept;
      } else {
        assert s[i] == kept[i - |result|] && s[j] == kept[j - |result|];
      }
    }
    forall a, b | a in s && b in s && a.line == b.line && a.col != b.col
      ensures Abs(a.col - b.col) >= wl
    {
      if a in kept && b in kept {
        var i :| 0 <= i < |kept| && kept[i] == a;
        var j :| 0 <= j < |kept| && kept[j] == b;
        assert i != j;
      }
    }
  }

  /** Sorting and cutting to `wordCount` gives a sorted, tie-ordered, non-overlapping selection from `s`. */
  lemma SortTakeShape(s: seq<Token>, wl: nat, wordCount: int)
    requires TiesOrdered(s, TextOf, EncounterBefore) && Apart(s, wl)
    ensures wordCount >= 0 ==> |Take(SortBy(s, TextOf, TextAfter), wordCount)| <= wordCount
    ensures SortedBy(Take(SortBy(s, TextOf, TextAfter), wordCount), TextOf, TextAfter)
    ensures TiesOrdered(Take(SortBy(s, TextOf, TextAfter), wordCount), TextOf, EncounterBefore)
    ensures Apart(Take(SortBy(s, TextOf, TextAfter), wordCount), wl)
    ensures forall t :: t in Take(SortBy(s, TextOf, TextAfter), wordCount) ==> t in s
  {
    var sorted := SortBy(s, TextOf, TextAfter);
    TextAfterIsStrictTotalOrder();
    SortByPermutation(s, TextOf, TextAfter);
    SortBySorted(s, TextOf, TextAfter);
    SortByStable(s, TextOf, TextAfter, EncounterBefore);
    assert forall t :: t in sorted ==> t in s by {
      forall t | t in sorted
        ensures t in s
      {
        assert t in multiset(sorted);
      }
    }
    assert Apart(sorted, wl);
    PrefixShape(sorted, Take(sorted, wordCount), wl);
  }

  /** A prefix of a sorted, tie-ordered, non-overlapping list is all three, and draws from it. */
  lemma PrefixShape(s: seq<Token>, r: seq<Token>, wl: nat)
    requires r <= s
    requires SortedBy(s, TextOf, TextAfter) && TiesOrdered(s, TextOf, EncounterBefore) && Apart(s, wl)
    ensures SortedBy(r, TextOf, TextAfter) && TiesOrdered(r, TextOf, EncounterBefore) && Apart(r, wl)
    ensures forall t :: t in r ==> t in s
  {
    assert forall i :: 0 <= i < |r| ==> r[i] == s[i];
  }

  /** Merging the tokens of line `n - 1` keeps the shape of the result. */
  lemma MergeKeepsShape(fileTxt: seq<string>, wl: nat, wordCount: int, n: nat, result: seq<Token>)
    requires wl >= 1 && 0 < n <= |fileTxt|
    requires ResultShape(fileTxt, wl, wordCount, n - 1, result)
    ensures ResultShape(fileTxt, wl, wordCount, n, Merge(result, LineKept(fileTxt[n - 1], n - 1, wl), wordCount))
  {
    var kept := LineKept(fileTxt[n - 1], n - 1, wl);
    LineKeptShape(fileTxt[n - 1], n - 1, wl);
    AppendLineShape(result, kept, n - 1, wl);
    SortTakeShape(result + kept, wl, wordCount);
    var r := Merge(result, kept, wordCount);
    forall t | t in r
      ensures t.line < n && TokenOf(fileTxt, wl, t) && t in LineKept(fileTxt[t.line], t.line, wl)
    {
      assert t in result || t in kept;
    }
  }

  lemma {:induction false} MergedUpToShape(fileTxt: seq<string>, wl: nat, wordCount: int, n: nat)
    requires wl >= 1 && n <= |fileTxt|
    ensures ResultShape(fileTxt, wl, wordCount, n, MergedUpTo(fileTxt, wl, wordCount, n))
  {
    if n > 0 {
      var prev := MergedUpTo(fileTxt, wl, wordCount, n - 1);
      MergedUpToShape(fileTxt, wl, wordCount, n - 1);
      MergeKeepsShape(fileTxt, wl, wordCount, n, prev);
    }
  }

  /** With windows of length 0 no line contributes a token, so the result stays empty. */
  lemma {:induction false} MergedUpToEmptyWindows(fileTxt: seq<string>, wordCount: int, n: nat)
    requires n <= |fileTxt|
    ensures MergedUpTo(fileTxt, 0, wordCount, n) == []
  {
    if n > 0 {
      MergedUpToEmptyWindows(fileTxt, wordCount, n - 1);
      KeptUpToEmptyWindows(fileTxt[n - 1], n - 1, |fileTxt[n - 1]|);
    }
  }

  /**
   * `u` comes before `t` in the merged result: a greater text, or the same text met
   * earlier.
   */
  predicate Precedes(u: Token, t: Token)
  {
    StrLess(t.text, u.text) || (u.text == t.text && EncounterBefore(u, t))
  }

  lemma PrecedesTransitive(a: Token, b: Token, c: Token)
    requires Precedes(a, b) && Precedes(b, c)
    ensures Precedes(a, c)
  {
    if StrLess(b.text, a.text) && StrLess(c.text, b.text) {
      StrLessTransitive(c.text, b.text, a.text);
    }
  }

  lemma PrecedesIrreflexive(a: Token)
    ensures !Precedes(a, a)
  {
    StrLessIrreflexive(a.text);
  }

  /** A token that comes first has a text at least as great. */
  lemma PrecedesNotLess(u: Token, t: Token)
    requires Precedes(u, t)
    ensures !StrLess(u.text, t.text)
  {
    if StrLess(u.text, t.text) {
      if u.text == t.text {
        StrLessIrreflexive(u.text);
      } else {
        StrLessTransitive(u.text, t.text, u.text);
        StrLessIrreflexive(u.text);
      }
    }
  }

  /** A list sorted by descending text, equal texts in encounter order, is strictly ordered by `Precedes`. */
  lemma SortedPrecedes(s: seq<Token>)
    requires SortedBy(s, TextOf, TextAfter) && TiesOrdered(s, TextOf, EncounterBefore)
    ensures forall i, j :: 0 <= i < j < |s| ==> Precedes(s[i], s[j])
  {
    forall i, j | 0 <= i < j < |s|
      ensures Precedes(s[i], s[j])
    {
      if s[i].text != s[j].text {
        assert !TextAfter(TextOf(s[j]), TextOf(s[i]));
        StrLessConnected(s[i].text, s[j].text);
      }
    }
  }

  /**
   * The cut to `wordCount` after each line loses nothing that a cut of all kept
   * tokens would keep: a token is in the result, or the result is full and every
   * token in it comes before it.
   */
  predicate KeptOrOutranked(r: seq<Token>, wordCount: int, t: Token)
  {
    t in r || (|r| == wordCount && forall u :: u in r ==> Precedes(u, t))
  }

  /**
   * If `x` draws `k` or more elements from the strictly ordered list `s`, all
   * coming before `t`, then so does the `k`-th element of `s`.
   */
  lemma SortedOutranks(s: seq<Token>, x: seq<Token>, k: nat, t: Token)
    requires forall i, j :: 0 <= i < j < |s| ==> Precedes(s[i], s[j])
    requires multiset(x) <= multiset(s)
    requires 0 < k <= |x|
    requires forall u :: u in x ==> Precedes(u, t)
    ensures k <= |s| && Precedes(s[k - 1], t)
  {
    MultisetSubsetSize(multiset(x), multiset(s));
    if !Precedes(s[k - 1], t) {
      var front, back := s[..k - 1], s[k - 1..];
      assert s == front + back;
      forall u | u in back
        ensures !Precedes(u, t)
      {
        var j :| 0 <= j < |back| && back[j] == u;
        if j > 0 && Precedes(u, t) {
          PrecedesTransitive(s[k - 1], u, t);
        }
      }
      forall u
        ensures multiset(x)[u] <= multiset(front)[u]
      {
        if u in x {
          assert u !in back;
        }
      }
      MultisetSubsetSize(multiset(x), multiset(front));
      assert false;
    }
  }

  /** One merge keeps every token of the line and every token already kept or outranked. */
  lemma MergeRetains(result: seq<Token>, kept: seq<Token>, wordCount: int, t: Token)
    requires wordCount >= 0
    requires TiesOrdered(result + kept, TextOf, EncounterBefore)
    requires t in kept || KeptOrOutranked(result, wordCount, t)
    ensures KeptOrOutranked(Merge(result, kept, wordCount), wordCount, t)
  {
    var s := result + kept;
    var sorted := SortBy(s, TextOf, TextAfter);
    TextAfterIsStrictTotalOrder();
    SortByPermutation(s, TextOf, TextAfter);
    SortBySorted(s, TextOf, TextAfter);
    SortByStable(s, TextOf, TextAfter, EncounterBefore);
    SortedPrecedes(sorted);
    if t in s {
      assert t in multiset(sorted);
      CutRetainsMember(sorted, wordCount, t);
    } else {
      assert multiset(s) == multiset(result) + multiset(kept);
      CutRetainsOutranked(sorted, result, wordCount, t);
    }
  }

  /** A token of an ordered list survives the cut, or every token that survives comes before it. */
  lemma CutRetainsMember(sorted: seq<Token>, wordCount: int, t: Token)
    requires wordCount >= 0
    requires forall i, j :: 0 <= i < j < |sorted| ==> Precedes(sorted[i], sorted[j])
    requires t in sorted
    ensures KeptOrOutranked(Take(sorted, wordCount), wordCount, t)
  {
    var r := Take(sorted, wordCount);
    var p :| 0 <= p < |sorted| && sorted[p] == t;
    if p < wordCount {
      assert r[p] == t;
    } else {
      forall u | u in r
        ensures Precedes(u, t)
      {
        var i :| 0 <= i < |r| && r[i] == u;
        assert sorted[i] == u;
      }
    }
  }

  /**
   * If `wordCount` tokens drawn from an ordered list all come before `t`, so does
   * every token that survives the cut.
   */
  lemma CutRetainsOutranked(sorted: seq<Token>, result: seq<Token>, wordCount: int, t: Token)
    requires wordCount >= 0
    requires forall i, j :: 0 <= i < j < |sorted| ==> Precedes(sorted[i], sorted[j])
    requires multiset(result) <= multiset(sorted)
    requires |result| == wordCount && forall u :: u in result ==> Precedes(u, t)
    ensures KeptOrOutranked(Take(sorted, wordCount), wordCount, t)
  {
    var r := Take(sorted, wordCount);
    MultisetSubsetSize(multiset(result), multiset(sorted));
    forall u | u in r
      ensures Precedes(u, t)
    {
      var i :| 0 <= i < |r| && r[i] == u;
      SortedOutranks(sorted, result, wordCount, t);
      if i < wordCount - 1 {
        PrecedesTransitive(u, sorted[wordCount - 1], t);
      }
    }
  }

  /** Every token kept by one of the first `n` lines is in the result, or outranked by all of a full result. */
  lemma {:induction false} MergedUpToRetains(fileTxt: seq<string>, wl: nat, wordCount: int, n: nat)
    requires wordCount >= 0 && n <= |fileTxt|
    ensures forall l, t :: 0 <= l < n && t in LineKept(fileTxt[l], l, wl) ==>
      KeptOrOutranked(MergedUpTo(fileTxt, wl, wordCount, n), wordCount, t)
  {
    if n > 0 && wl == 0 {
      forall l | 0 <= l < n
        ensures LineKept(fileTxt[l], l, wl) == []
      {
        KeptUpToEmptyWindows(fileTxt[l], l, |fileTxt[l]|);
      }
    } else if n > 0 {
      MergedUpToRetains(fileTxt, wl, wordCount, n - 1);
      var prev := MergedUpTo(fileTxt, wl, wordCount, n - 1);
      var kept := LineKept(fileTxt[n - 1], n - 1, wl);
      MergeInputTiesOrdered(fileTxt, wl, wordCount, n);
      forall l, t | 0 <= l < n && t in LineKept(fileTxt[l], l, wl)
        ensures KeptOrOutranked(MergedUpTo(fileTxt, wl, wordCount, n), wordCount, t)
      {
        MergeRetains(prev, kept, wordCount, t);
      }
    }
  }

  /** The list merged after line `n - 1` holds equal texts in encounter order. */
  lemma MergeInputTiesOrdered(fileTxt: seq<string>, wl: nat, wordCount: int, n: nat)
    requires wl >= 1 && 0 < n <= |fileTxt|
    ensures TiesOrdered(MergedUpTo(fileTxt, wl, wordCount, n - 1) + LineKept(fileTxt[n - 1], n - 1, wl), TextOf, EncounterBefore)
  {
    MergedUpToTies(fileTxt, wl, wordCount, n - 1);
    LineKeptShape(fileTxt[n - 1], n - 1, wl);
    AppendLineShape(MergedUpTo(fileTxt, wl, wordCount, n - 1), LineKept(fileTxt[n - 1], n - 1, wl), n - 1, wl);
  }

  /** The parts of the result's shape that appending a later line needs. */
  lemma MergedUpToTies(fileTxt: seq<string>, wl: nat, wordCount: int, n: nat)
    requires wl >= 1 && n <= |fileTxt|
    ensures TiesOrdered(MergedUpTo(fileTxt, wl, wordCount, n), TextOf, EncounterBefore)
    ensures Apart(MergedUpTo(fileTxt, wl, wordCount, n), wl)
    ensures forall t :: t in MergedUpTo(fileTxt, wl, wordCount, n) ==> t.line < n
  {
    MergedUpToShape(fileTxt, wl, wordCount, n);
  }

  /**
   * With a positive `wordCount`, every candidate window of every line is matched
   * by a selected token whose text is at least as great.
   */
  lemma HighLexiOutranksCandidates(fileTxt: seq<string>, wl: nat, wordCount: int)
    requires wordCount > 0
    ensures forall l, i: nat :: 0 <= l < |fileTxt| && CandidateAt(fileTxt[l], wl, i) ==>
      exists u :: u in HighLexi(fileTxt, wl, wordCount) && !StrLess(u.text, fileTxt[l][i..i + wl])
  {
    var r := HighLexi(fileTxt, wl, wordCount);
    MergedUpToRetains(fileTxt, wl, wordCount, |fileTxt|);
    forall l, i: nat | 0 <= l < |fileTxt| && CandidateAt(fileTxt[l], wl, i)
      ensures exists u :: u in r && !StrLess(u.text, fileTxt[l][i..i + wl])
    {
      LineKeptDominates(fileTxt[l], l, wl);
      var t :| t in LineKept(fileTxt[l], l, wl) && !StrLess(t.text, fileTxt[l][i..i + wl]);
      assert KeptOrOutranked(r, wordCount, t);
      if t !in r {
        assert r[0] in r;
        PrecedesNotLess(r[0], t);
        NotStrLessTransitive(r[0].text, t.text, fileTxt[l][i..i + wl]);
      }
    }
  }

  /**
   * Two ordered lists of at most `wordCount` tokens, each keeping or outranking
   * every token of the other, hold the same tokens in the same order.
   */
  lemma SameTop(r1: seq<Token>, r2: seq<Token>, wordCount: int)
    requires forall i, j :: 0 <= i < j < |r1| ==> Precedes(r1[i], r1[j])
    requires forall i, j :: 0 <= i < j < |r2| ==> Precedes(r2[i], r2[j])
    requires |r1| <= wordCount && |r2| <= wordCount
    requires forall x :: x in r1 ==> KeptOrOutranked(r2, wordCount, x)
    requires forall x :: x in r2 ==> KeptOrOutranked(r1, wordCount, x)
    ensures r1 == r2
  {
    ContainedInTop(r1, r2, wordCount);
    ContainedInTop(r2, r1, wordCount);
    OrderedSameElements(r1, r2);
  }

  /** Every token of `r1` is in `r2` when each list keeps or outranks the other's tokens. */
  lemma ContainedInTop(r1: seq<Token>, r2: seq<Token>, wordCount: int)
    requires forall i, j :: 0 <= i < j < |r2| ==> Precedes(r2[i], r2[j])
    requires |r1| <= wordCount
    requires forall x :: x in r1 ==> KeptOrOutranked(r2, wordCount, x)
    requires forall x :: x in r2 ==> KeptOrOutranked(r1, wordCount, x)
    ensures forall x :: x in r1 ==> x in r2
  {
    forall x | x in r1
      ensures x in r2
    {
      if x !in r2 {
        forall u | u in r2
          ensures u in r1
        {
          if u !in r1 {
            PrecedesTransitive(x, u, x);
            PrecedesIrreflexive(x);
          }
        }
        var e1, e2 := set y | y in r1, set y | y in r2;
        forall i, j | 0 <= i < j < |r2|
          ensures r2[i] != r2[j]
        {
          PrecedesIrreflexive(r2[i]);
        }
        assert x !in e2;
        assert |e2 + {x}| == |e2| + 1;
        assert e2 + {x} <= e1;
        ElementsSize(r1);
        ElementsSize(r2);
        SubsetSize(e2 + {x}, e1);
        assert false;
      }
    }
  }

  /** Two lists ordered by `Precedes` with the same tokens are equal. */
  lemma {:induction false} OrderedSameElements(r1: seq<Token>, r2: seq<Token>)
    requires forall i, j :: 0 <= i < j < |r1| ==> Precedes(r1[i], r1[j])
    requires forall i, j :: 0 <= i < j < |r2| ==> Precedes(r2[i], r2[j])
    requires forall x :: x in r1 <==> x in r2
    ensures r1 == r2
  {
    if r2 != [] {
      assert r2[0] in r2;
    }
    if r1 != [] {
      assert r1[0] in r1 && r2 != [];
      var k :| 0 <= k < |r1| && r1[k] == r2[0];
      var m :| 0 <= m < |r2| && r2[m] == r1[0];
      if k > 0 && m > 0 {
        PrecedesTransitive(r1[0], r2[0], r1[0]);
        PrecedesIrreflexive(r1[0]);
      }
      if k > 0 && m == 0 {
        PrecedesIrreflexive(r1[0]);
      }
      if k == 0 && m > 0 {
        PrecedesIrreflexive(r2[0]);
      }
      assert r1[0] == r2[0];
      forall x
        ensures x in r1[1..] <==> x in r2[1..]
      {
        if x in r1[1..] {
          var j :| 1 <= j < |r1| && r1[j] == x;
          PrecedesIrreflexive(x);
          assert x in r2;
        }
        if x in r2[1..] {
          var j :| 1 <= j < |r2| && r2[j] == x;
          PrecedesIrreflexive(x);
          assert x in r1;
        }
      }
      OrderedSameElements(r1[1..], r2[1..]);
      assert r1 == [r1[0]] + r1[1..] && r2 == [r2[0]] + r2[1..];
    }
  }

  /**
   * The selection is determined by its properties: a list of at most `wordCount`
   * tokens that the lines keep, greatest text first with equal texts in encounter
   * order, that keeps or outranks every token the lines keep, is the result.
   */
  lemma HighLexiDetermined(fileTxt: seq<string>, wl: nat, wordCount: int, r: seq<Token>)
    requires wordCount >= 0 && |r| <= wordCount
    requires forall t :: t in r ==> t.line < |fileTxt| && t in LineKept(fileTxt[t.line], t.line, wl)
    requires forall i, j :: 0 <= i < j < |r| ==> !StrLess(r[i].text, r[j].text)
    requires forall i, j :: 0 <= i < j < |r| && r[i].text == r[j].text ==> EncounterBefore(r[i], r[j])
    requires forall l, t :: 0 <= l < |fileTxt| && t in LineKept(fileTxt[l], l, wl) ==> KeptOrOutranked(r, wordCount, t)
    ensures r == HighLexi(fileTxt, wl, wordCount)
  {
    var h := HighLexi(fileTxt, wl, wordCount);
    MergedUpToRetains(fileTxt, wl, wordCount, |fileTxt|);
    if wl == 0 {
      MergedUpToEmptyWindows(fileTxt, wordCount, |fileTxt|);
    } else {
      MergedUpToShape(fileTxt, wl, wordCount, |fileTxt|);
      SortedPrecedes(h);
    }
    assert SortedBy(r, TextOf, TextAfter);
    SortedPrecedes(r);
    forall x | x in r
      ensures KeptOrOutranked(h, wordCount, x)
    {
    }
    forall x | x in h
      ensures KeptOrOutranked(r, wordCount, x)
    {
    }
    SameTop(r, h, wordCount);
  }

  // ---------------------------------------------------------------------------
  // The selector

  /**
   * `fetch_highlexi_str_with_loc`: at most `wordCount` tokens, each one its line
   * keeps (so a window of `wordLength` ASCII letters and digits of that line),
   * greatest text first, equal texts in the order they were met, two tokens of one
   * line never overlapping; no tokens for an empty text. No token a line keeps is
   * lost to the cut unless the result is full of tokens that come before it, so
   * every candidate window is matched by a selected token at least as great.
   * `HighLexiDetermined` shows that these properties fix the result.
   */
  method FetchHighLexi(fileTxt: seq<string>, wordLength: nat, wordCount: int) returns (resultLs: seq<Token>)
    ensures resultLs == HighLexi(fileTxt, wordLength, wordCount)
    ensures wordCount >= 0 ==> |resultLs| <= wordCount
    ensures forall t :: t in resultLs ==> TokenOf(fileTxt, wordLength, t)
    ensures forall t :: t in resultLs ==> t.line < |fileTxt| && t in LineKept(fileTxt[t.line], t.line, wordLength)
    ensures forall i, j :: 0 <= i < j < |resultLs| ==> !StrLess(resultLs[i].text, resultLs[j].text)
    ensures forall i, j :: 0 <= i < j < |resultLs| && resultLs[i].text == resultLs[j].text ==>
      EncounterBefore(resultLs[i], resultLs[j])
    ensures forall a, b :: a in resultLs && b in resultLs && a.line == b.line && a.col != b.col ==>
      Abs(a.col - b.col) >= wordLength
    ensures fileTxt == [] ==> resultLs == []
    ensures wordCount >= 0 ==> forall l, t :: 0 <= l < |fileTxt| && t in LineKept(fileTxt[l], l, wordLength) ==>
      KeptOrOutranked(resultLs, wordCount, t)
    ensures wordCount > 0 ==> forall l, i: nat :: 0 <= l < |fileTxt| && CandidateAt(fileTxt[l], wordLength, i) ==>
      exists u :: u in resultLs && !StrLess(u.text, fileTxt[l][i..i + wordLength])
  {
    resultLs := [];
    for lineId := 0 to |fileTxt|
      invariant resultLs == MergedUpTo(fileTxt, wordLength, wordCount, lineId)
    {
      var topkSubstrings := ScanLine(fileTxt[lineId], lineId, wordLength);
      resultLs := resultLs + topkSubstrings;
      resultLs := Take(SortBy(resultLs, TextOf, TextAfter), wordCount);
    }
    if wordLength == 0 {
      MergedUpToEmptyWindows(fileTxt, wordCount, |fileTxt|);
    } else {
      MergedUpToShape(fileTxt, wordLength, wordCount, |fileTxt|);
    }
    if wordCount >= 0 {
      MergedUpToRetains(fileTxt, wordLength, wordCount, |fileTxt|);
    }
    if wordCount > 0 {
      HighLexiOutranksCandidates(fileTxt, wordLength, wordCount);
    }
  }

  // ---------------------------------------------------------------------------
  // The quadrilateral check of the command-line entry point

  /** The (line, index) pairs of the tokens. */
  function Coordinates(tokens: seq<Token>): seq<Point>
  {
    seq(|tokens|, i requires 0 <= i < |tokens| => Point(tokens[i].line, tokens[i].col))
  }

  /**
   * The entry point draws a quadrilateral only from four tokens of which no three
   * share a line and no three share a starting index.
   */
  lemma FoundQuadrilateralIff(tokens: seq<Token>)
    ensures IsQuadrilateral(Coordinates(tokens)) <==>
      |tokens| == 4 &&
      !ThreeOfFourEqual(tokens[0].line, tokens[1].line, tokens[2].line, tokens[3].line) &&
      !ThreeOfFourEqual(tokens[0].col, tokens[1].col, tokens[2].col, tokens[3].col)
  {
    IsQuadrilateralIff(Coordinates(tokens));
  }
}
