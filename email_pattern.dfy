/** `find_emails_in_text`: `re.findall` of the pattern
      [A-Za-z0-9._%+-]+ @ [A-Za-z0-9.-]+ \. [A-Za-z]{2,}
    written out as a scanner that follows the regex engine's backtracking order. */
module EmailPattern {
  import opened JsonValues

  predicate IsAsciiLetter(c: char) {
    'A' <= c <= 'Z' || 'a' <= c <= 'z'
  }

  predicate IsDigit(c: char) {
    '0' <= c <= '9'
  }

  /** The class `[A-Za-z0-9._%+-]` of the part before `@`. */
  predicate IsLocalChar(c: char) {
    IsAsciiLetter(c) || IsDigit(c) || c == '.' || c == '_' || c == '%' || c == '+' || c == '-'
  }

  /** The class `[A-Za-z0-9.-]` of the part after `@`. */
  predicate IsDomainChar(c: char) {
    IsAsciiLetter(c) || IsDigit(c) || c == '.' || c == '-'
  }

  datatype CharClass = LocalPart | DomainPart | Letters

  predicate InClass(c: char, k: CharClass) {
    match k
    case LocalPart => IsLocalChar(c)
    case DomainPart => IsDomainChar(c)
    case Letters => IsAsciiLetter(c)
  }

  // ---------------------------------------------------------------------------------
  // The language of the pattern

  /** `w` splits as local `@` domain `.` tld with the `@` at `at` and the last dot at `dot`. */
  predicate EmailSplit(w: string, at: int, dot: int) {
    && 0 < at && at + 1 < dot && dot + 2 < |w|
    && (forall i :: 0 <= i < at ==> IsLocalChar(w[i]))
    && w[at] == '@'
    && (forall i :: at < i < dot ==> IsDomainChar(w[i]))
    && w[dot] == '.'
    && (forall i :: dot < i < |w| ==> IsAsciiLetter(w[i]))
  }

  /** `w` is a whole match of the pattern. */
  ghost predicate IsEmail(w: string) {
    exists at, dot :: EmailSplit(w, at, dot)
  }

  // ---------------------------------------------------------------------------------
  // The regex engine's search at one start position

  /** End of the longest run of `k` characters starting at `i` (what a greedy `k+` eats). */
  function RunEnd(s: string, i: nat, k: CharClass): (e: nat)
    requires i <= |s|
    ensures i <= e <= |s|
    ensures forall j {:trigger InClass(s[j], k)} :: i <= j < e ==> InClass(s[j], k)
    ensures e < |s| ==> !InClass(s[e], k)
    decreases |s| - i
  {
    if i < |s| && InClass(s[i], k) then RunEnd(s, i + 1, k) else i
  }

  /** A dot at `m` after which `\.[A-Za-z]{2,}` can match. */
  predicate IsTldDot(s: string, m: nat) {
    m + 2 < |s| && s[m] == '.' && IsAsciiLetter(s[m + 1]) && IsAsciiLetter(s[m + 2])
  }

  /** The last position in [lo, hi) where the tld can start: the greedy domain run backs off
      one character at a time from its end until `\.[A-Za-z]{2,}` matches. */
  function LastTldDot(s: string, lo: nat, hi: nat): (r: Option<nat>)
    requires lo <= hi <= |s|
    ensures r.Some? ==> lo <= r.value < hi && IsTldDot(s, r.value)
    ensures r.Some? ==> forall m :: r.value < m < hi ==> !IsTldDot(s, m)
    ensures r.None? ==> forall m :: lo <= m < hi ==> !IsTldDot(s, m)
    decreases hi - lo
  {
    if hi == lo then None
    else if IsTldDot(s, hi - 1) then Some(hi - 1)
    else LastTldDot(s, lo, hi - 1)
  }

  /** The end of the match the engine finds when it starts at `p`, if any.  The local run is
      greedy and must stop at an `@` (no shorter run can, since `@` is not a local
      character); the domain run is greedy and backs off to the last usable dot; the tld
      then takes every letter that follows. */
  function MatchAt(s: string, p: nat): (r: Option<nat>)
    requires p <= |s|
    ensures r.Some? ==> p < r.value <= |s|
  {
    var q := RunEnd(s, p, LocalPart);
    if q == p || q == |s| || s[q] != '@' then None else AfterAt(s, q)
  }

  /** The end of the match once the local part has been matched up to the `@` at `q`. */
  function AfterAt(s: string, q: nat): (r: Option<nat>)
    requires q < |s|
    ensures r.Some? ==> q + 3 < r.value <= |s|
  {
    var d := RunEnd(s, q + 1, DomainPart);
    if d < q + 2 then None
    else
      match LastTldDot(s, q + 2, d)
      case None => None
      case Some(m) =>
        assert InClass(s[m + 1], Letters) && InClass(s[m + 2], Letters);
        Some(RunEnd(s, m + 1, Letters))
  }

  /** What the engine finds at `p` is a whole match of the pattern. */
  lemma MatchAtSound(s: string, p: nat)
    requires p <= |s| && MatchAt(s, p).Some?
    ensures IsEmail(s[p..MatchAt(s, p).value])
  {
    var q := RunEnd(s, p, LocalPart);
    var d := RunEnd(s, q + 1, DomainPart);
    var m := LastTldDot(s, q + 2, d).value;
    var e := MatchAt(s, p).value;
    assert e == RunEnd(s, m + 1, Letters);
    assert e >= m + 3 by {
      assert InClass(s[m + 1], Letters) && InClass(s[m + 2], Letters);
    }
    var w := s[p..e];
    assert EmailSplit(w, q - p, m - p) by {
      forall i | 0 <= i < q - p ensures IsLocalChar(w[i]) {
        assert w[i] == s[p + i] && InClass(s[p + i], LocalPart);
      }
      forall i | q - p < i < m - p ensures IsDomainChar(w[i]) {
        assert w[i] == s[p + i] && InClass(s[p + i], DomainPart);
      }
      forall i | m - p < i < |w| ensures IsAsciiLetter(w[i]) {
        assert w[i] == s[p + i] && InClass(s[p + i], Letters);
      }
    }
  }

  /** A run of class `k` characters from `i` to `j` is eaten whole by the greedy run. */
  lemma {:induction false} RunEndCovers(s: string, i: nat, j: nat, k: CharClass)
    requires i <= j <= |s|
    requires forall x :: i <= x < j ==> InClass(s[x], k)
    ensures j <= RunEnd(s, i, k)
    decreases j - i
  {
    if i < j {
      RunEndCovers(s, i + 1, j, k);
    }
  }

  /** A split of `s[p..e']` read as positions of `s`. */
  lemma SplitInText(s: string, p: nat, e': nat, at: int, dot: int)
    requires p <= e' <= |s| && EmailSplit(s[p..e'], at, dot)
    ensures p + dot + 2 < e'
    ensures forall x :: p <= x < p + at ==> InClass(s[x], LocalPart)
    ensures s[p + at] == '@'
    ensures forall x :: p + at < x < e' ==> InClass(s[x], DomainPart)
    ensures IsTldDot(s, p + dot)
    ensures forall x :: p + dot < x < e' ==> InClass(s[x], Letters)
  {
    var w := s[p..e'];
    assert forall x :: p <= x < e' ==> s[x] == w[x - p];
  }

  /** Every whole match starting at `p` is found by the engine, and the engine's match is
      at least as long: the engine returns the longest match starting at `p`. */
  lemma MatchAtLongest(s: string, p: nat, e': nat)
    requires p <= e' <= |s| && IsEmail(s[p..e'])
    ensures MatchAt(s, p).Some? && e' <= MatchAt(s, p).value
  {
    var at, dot :| EmailSplit(s[p..e'], at, dot);
    SplitInText(s, p, e', at, dot);
    var q := RunEnd(s, p, LocalPart);
    RunEndCovers(s, p, p + at, LocalPart);
    assert !InClass(s[p + at], LocalPart);
    assert q == p + at;
    RunEndCovers(s, q + 1, e', DomainPart);
    var d := RunEnd(s, q + 1, DomainPart);
    var m := LastTldDot(s, q + 2, d).value;
    if m + 1 < e' {
      RunEndCovers(s, m + 1, e', Letters);
    }
  }

  /** The engine finds nothing at `p` exactly when no substring starting at `p` is a whole
      match of the pattern. */
  lemma MatchAtNone(s: string, p: nat)
    requires p <= |s|
    ensures MatchAt(s, p).None? <==> forall e :: p <= e <= |s| ==> !IsEmail(s[p..e])
  {
    if MatchAt(s, p).Some? {
      MatchAtSound(s, p);
    }
    forall e | p <= e <= |s| && IsEmail(s[p..e]) ensures MatchAt(s, p).Some? {
      MatchAtLongest(s, p, e);
    }
  }

  // ---------------------------------------------------------------------------------
  // findall: leftmost match, resume at its end

  /** The leftmost start at or after `pos` where the engine finds a match, with its end. */
  function NextMatch(s: string, pos: nat): (r: Option<(nat, nat)>)
    requires pos <= |s|
    ensures r.Some? ==> pos <= r.value.0 < r.value.1 <= |s|
    decreases |s| - pos
  {
    match MatchAt(s, pos)
    case Some(e) => Some((pos, e))
    case None => if pos == |s| then None else NextMatch(s, pos + 1)
  }

  /** What the search from `pos` reports is a match the engine finds. */
  lemma {:induction false} NextMatchHit(s: string, pos: nat)
    requires pos <= |s| && NextMatch(s, pos).Some?
    ensures MatchAt(s, NextMatch(s, pos).value.0) == Some(NextMatch(s, pos).value.1)
    decreases |s| - pos
  {
    if MatchAt(s, pos).None? {
      NextMatchHit(s, pos + 1);
    }
  }

  /** The search from `pos` passes over only starts where the engine finds nothing. */
  lemma {:induction false} NextMatchGap(s: string, pos: nat, p: nat)
    requires pos <= p <= |s| && NextMatch(s, pos).Some? && p < NextMatch(s, pos).value.0
    ensures MatchAt(s, p).None?
    decreases |s| - pos
  {
    if pos < p {
      assert MatchAt(s, pos).None?;
      NextMatchGap(s, pos + 1, p);
    }
  }

  /** The search from `pos` finds nothing only when no start from `pos` has a match. */
  lemma {:induction false} NextMatchMiss(s: string, pos: nat, p: nat)
    requires pos <= p <= |s| && NextMatch(s, pos).None?
    ensures MatchAt(s, p).None?
    decreases |s| - pos
  {
    if pos < p {
      NextMatchMiss(s, pos + 1, p);
    }
  }

  /** The search from `pos` stops at the first start where the engine finds a match, and
      finds nothing only when no start from `pos` has one. */
  lemma NextMatchLeftmost(s: string, pos: nat)
    requires pos <= |s|
    ensures var r := NextMatch(s, pos);
      && (r.Some? ==> MatchAt(s, r.value.0) == Some(r.value.1))
      && (r.Some? ==> forall p :: pos <= p < r.value.0 ==> MatchAt(s, p).None?)
      && (r.None? ==> forall p :: pos <= p <= |s| ==> MatchAt(s, p).None?)
  {
    if NextMatch(s, pos).Some? {
      NextMatchHit(s, pos);
      forall p | pos <= p < NextMatch(s, pos).value.0 ensures MatchAt(s, p).None? {
        NextMatchGap(s, pos, p);
      }
    } else {
      forall p | pos <= p <= |s| ensures MatchAt(s, p).None? {
        NextMatchMiss(s, pos, p);
      }
    }
  }

  /** The spans of the successive matches `findall` reports when it starts at `pos`. */
  function Spans(s: string, pos: nat): (r: seq<(nat, nat)>)
    requires pos <= |s|
    ensures forall i :: 0 <= i < |r| ==> pos <= r[i].0 < r[i].1 <= |s|
    ensures forall i :: 0 < i < |r| ==> r[i - 1].1 <= r[i].0
    decreases |s| - pos
  {
    var next := NextMatch(s, pos);
    if next.None? then []
    else
      var rest := Spans(s, next.value.1);
      var r := [next.value] + rest;
      assert forall i :: 0 < i < |r| ==> r[i] == rest[i - 1];
      r
  }

  /** The substrings of `s` the spans cover, in order. */
  function Cut(s: string, spans: seq<(nat, nat)>): (r: seq<string>)
    requires forall i :: 0 <= i < |spans| ==> spans[i].0 <= spans[i].1 <= |s|
    ensures |r| == |spans|
    ensures forall i :: 0 <= i < |r| ==> r[i] == s[spans[i].0..spans[i].1]
  {
    seq(|spans|, i requires 0 <= i < |spans| => s[spans[i].0..spans[i].1])
  }

  /** `find_emails_in_text(text)`: every match, left to right, repeats included. */
  function FindEmails(text: string): seq<string> {
    Cut(text, Spans(text, 0))
  }

  /** Where the scan for the `i`-th match starts: `pos`, or the end of the previous match. */
  function ScanFrom(s: string, pos: nat, i: nat): nat
    requires pos <= |s| && i <= |Spans(s, pos)|
  {
    if i == 0 then pos else Spans(s, pos)[i - 1].1
  }

  /** The spans from `pos`: the first match, then the spans from its end. */
  lemma SpansUnfold(s: string, pos: nat)
    requires pos <= |s| && NextMatch(s, pos).Some?
    ensures NextMatch(s, pos).value.1 <= |s|
    ensures Spans(s, pos) == [NextMatch(s, pos).value] + Spans(s, NextMatch(s, pos).value.1)
  {
  }

  /** Past the first span, the spans and their scan starts are those from its end. */
  lemma {:induction false} SpansShift(s: string, pos: nat, i: nat)
    requires pos <= |s| && 0 < i < |Spans(s, pos)|
    ensures NextMatch(s, pos).Some?
    ensures var e := NextMatch(s, pos).value.1;
      && e <= |s| && i - 1 < |Spans(s, e)|
      && Spans(s, pos)[i] == Spans(s, e)[i - 1]
      && ScanFrom(s, pos, i) == ScanFrom(s, e, i - 1)
  {
    SpansUnfold(s, pos);
    var e := NextMatch(s, pos).value.1;
    var sp, rest := Spans(s, pos), Spans(s, e);
    assert sp[i] == rest[i - 1];
    if i > 1 {
      assert sp[i - 1] == rest[i - 2];
    }
  }

  /** The `i`-th span is what the engine finds at the leftmost start, at or after the end of
      the previous span, where it finds anything. */
  lemma {:induction false} SpanIsLeftmostMatch(s: string, pos: nat, i: nat)
    requires pos <= |s| && i < |Spans(s, pos)|
    ensures MatchAt(s, Spans(s, pos)[i].0) == Some(Spans(s, pos)[i].1)
    ensures forall p :: ScanFrom(s, pos, i) <= p < Spans(s, pos)[i].0 ==> MatchAt(s, p).None?
    decreases i
  {
    if i == 0 {
      SpansUnfold(s, pos);
      NextMatchLeftmost(s, pos);
    } else {
      SpansShift(s, pos, i);
      SpanIsLeftmostMatch(s, NextMatch(s, pos).value.1, i - 1);
    }
  }

  /** After the last span the engine finds nothing. */
  lemma {:induction false} SpansExhaustive(s: string, pos: nat)
    requires pos <= |s|
    ensures forall p :: ScanFrom(s, pos, |Spans(s, pos)|) <= p <= |s| ==> MatchAt(s, p).None?
    decreases |s| - pos
  {
    var next := NextMatch(s, pos);
    if next.None? {
      NextMatchLeftmost(s, pos);
    } else {
      var e := next.value.1;
      var sp, rest := Spans(s, pos), Spans(s, e);
      SpansUnfold(s, pos);
      SpansExhaustive(s, e);
      assert ScanFrom(s, pos, |sp|) == ScanFrom(s, e, |rest|) by {
        if rest != [] { assert sp[|sp| - 1] == rest[|rest| - 1]; }
      }
    }
  }

  /** Each reported match is a whole match of the pattern and the longest one starting where
      it starts, and no match of the pattern starts between the end of the previous one (or
      the beginning of the text) and it: the leftmost, non-overlapping matches of findall. */
  lemma SpansCharacterization(s: string, i: nat)
    requires i < |Spans(s, 0)|
    ensures var sp := Spans(s, 0);
      && IsEmail(s[sp[i].0..sp[i].1])
      && (forall e :: sp[i].0 <= e <= |s| && IsEmail(s[sp[i].0..e]) ==> e <= sp[i].1)
      && (forall p, e :: ScanFrom(s, 0, i) <= p < sp[i].0 && p <= e <= |s| ==> !IsEmail(s[p..e]))
  {
    var sp := Spans(s, 0);
    SpanIsLeftmostMatch(s, 0, i);
    MatchAtSound(s, sp[i].0);
    forall e | sp[i].0 <= e <= |s| && IsEmail(s[sp[i].0..e]) ensures e <= sp[i].1 {
      MatchAtLongest(s, sp[i].0, e);
    }
    forall p, e | ScanFrom(s, 0, i) <= p < sp[i].0 && p <= e <= |s| ensures !IsEmail(s[p..e]) {
      MatchAtNone(s, p);
    }
  }

  /** No match of the pattern starts after the last reported one. */
  lemma SpansTail(s: string)
    ensures forall p, e :: ScanFrom(s, 0, |Spans(s, 0)|) <= p <= e <= |s| ==> !IsEmail(s[p..e])
  {
    SpansExhaustive(s, 0);
    forall p, e | ScanFrom(s, 0, |Spans(s, 0)|) <= p <= e <= |s| ensures !IsEmail(s[p..e]) {
      MatchAtNone(s, p);
    }
  }

  /** Every element of `find_emails_in_text(text)` is a whole match of the pattern, cut from
      `text` at spans that run left to right and do not overlap. */
  lemma FindEmailsShape(text: string)
    ensures var sp := Spans(text, 0);
      && |FindEmails(text)| == |sp|
      && (forall i :: 0 <= i < |sp| ==> FindEmails(text)[i] == text[sp[i].0..sp[i].1] && IsEmail(FindEmails(text)[i]))
      && (forall i, j :: 0 <= i < j < |sp| ==> sp[i].1 <= sp[j].0)
  {
    var sp := Spans(text, 0);
    forall i | 0 <= i < |sp| ensures IsEmail(text[sp[i].0..sp[i].1]) {
      SpansCharacterization(text, i);
    }
    forall i, j | 0 <= i < j < |sp| ensures sp[i].1 <= sp[j].0 {
      SpansOrdered(text, 0, i, j);
    }
  }

  lemma {:induction false} SpansOrdered(s: string, pos: nat, i: nat, j: nat)
    requires pos <= |s| && i < j < |Spans(s, pos)|
    ensures Spans(s, pos)[i].1 <= Spans(s, pos)[j].0
    decreases j - i
  {
    var sp := Spans(s, pos);
    if j > i + 1 {
      SpansOrdered(s, pos, i + 1, j);
      assert sp[i].1 <= sp[i + 1].0 < sp[i + 1].1;
    }
  }

  /** `find_emails_in_text` returns `[]` exactly when no substring of the text is a match. */
  lemma FindEmailsEmpty(text: string)
    ensures FindEmails(text) == [] <==> forall p, e :: 0 <= p <= e <= |text| ==> !IsEmail(text[p..e])
  {
    var sp := Spans(text, 0);
    if sp != [] {
      SpansCharacterization(text, 0);
    } else {
      SpansTail(text);
    }
  }
}
