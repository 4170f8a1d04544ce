/** Worked instances of `find_emails_in_text`: what the scanner reports on concrete texts. */
module EmailExamples {
  import opened JsonValues
  import opened EmailPattern

  /** A run of `k` characters from `i` to `e`, stopped by the end of the text or by a
      character outside `k`, is what `RunEnd` measures. */
  lemma {:induction false} RunEndIs(s: string, i: nat, e: nat, k: CharClass)
    requires i <= e <= |s|
    requires forall j :: i <= j < e ==> InClass(s[j], k)
    requires e == |s| || !InClass(s[e], k)
    ensures RunEnd(s, i, k) == e
    decreases e - i
  {
    if i < e {
      RunEndIs(s, i + 1, e, k);
    }
  }

  /** Start positions where the engine finds nothing are passed over by the search. */
  lemma {:induction false} NextMatchSkips(s: string, pos: nat, p: nat)
    requires pos <= p <= |s|
    requires forall p' :: pos <= p' < p ==> MatchAt(s, p').None?
    ensures NextMatch(s, pos) == NextMatch(s, p)
    decreases p - pos
  {
    if pos < p {
      assert MatchAt(s, pos).None?;
      assert NextMatch(s, pos) == NextMatch(s, pos + 1);
      NextMatchSkips(s, pos + 1, p);
    }
  }

  /** Whether every character of `w` is in class `k`, checked one character at a time. */
  predicate AllIn(w: string, k: CharClass) {
    w == [] || (InClass(w[0], k) && AllIn(w[1..], k))
  }

  /** A piece `w` of class `k` laid at `a` in `s` puts a `k` character at each of its
      positions. */
  lemma {:induction false} ClassOver(s: string, a: nat, w: string, k: CharClass)
    requires a + |w| <= |s| && AllIn(w, k)
    requires forall x :: 0 <= x < |w| ==> s[a + x] == w[x]
    ensures forall j :: a <= j < a + |w| ==> InClass(s[j], k)
    decreases |w|
  {
    if w != [] {
      assert s[a + 0] == w[0];
      assert forall x :: 0 <= x < |w| - 1 ==> s[a + 1 + x] == w[1..][x] by {
        forall x | 0 <= x < |w| - 1 ensures s[a + 1 + x] == w[1..][x] {
          assert s[a + (x + 1)] == w[x + 1];
        }
      }
      ClassOver(s, a + 1, w[1..], k);
    }
  }

  /** No match starts at a position that begins no local run. */
  lemma NoRun(s: string, p: nat)
    requires p <= |s| && (p == |s| || !IsLocalChar(s[p]))
    ensures MatchAt(s, p).None?
  {
    RunEndIs(s, p, p, LocalPart);
  }

  /** No match starts inside a local run from `p` to `q` that is not followed by `@`. */
  lemma NoAtAfterRun(s: string, p: nat, q: nat)
    requires p <= q <= |s|
    requires forall j :: p <= j < q ==> InClass(s[j], LocalPart)
    requires q == |s| || (!IsLocalChar(s[q]) && s[q] != '@')
    ensures forall p' :: p <= p' <= q ==> MatchAt(s, p').None?
  {
    forall p' | p <= p' <= q ensures MatchAt(s, p').None? {
      RunEndIs(s, p', q, LocalPart);
    }
  }

  /** No match starts inside a local run from `p` to `q` whose `@` is followed by no
      domain character. */
  lemma NoDomainAfterAt(s: string, p: nat, q: nat)
    requires p <= q && q + 1 < |s|
    requires forall j :: p <= j < q ==> InClass(s[j], LocalPart)
    requires s[q] == '@' && !IsDomainChar(s[q + 1])
    ensures forall p' :: p <= p' <= q ==> MatchAt(s, p').None?
  {
    forall p' | p <= p' <= q ensures MatchAt(s, p').None? {
      RunEndIs(s, p', q, LocalPart);
      RunEndIs(s, q + 1, q + 1, DomainPart);
    }
  }

  /** "contact: a.b+1@sub.example.co, invalid@, @nodomain", written in three pieces. */
  const Sample := "contact: " + "a.b+1@sub.example.co" + ", invalid@, @nodomain"

  /** "contact" and ": " hold no match. */
  lemma SampleLead()
    ensures forall p :: 0 <= p < 9 ==> MatchAt(Sample, p).None?
  {
    SampleContactChars();
    assert Sample[7] == ':' && Sample[8] == ' ';
    NoAtAfterRun(Sample, 0, 7);
    NoRun(Sample, 8);
  }

  lemma SampleContactChars()
    ensures forall j :: 0 <= j < 7 ==> InClass(Sample[j], LocalPart)
  {
    ClassOver(Sample, 0, "contact", LocalPart);
  }

  lemma SampleLocal()
    ensures RunEnd(Sample, 9, LocalPart) == 14 && Sample[14] == '@'
  {
    ClassOver(Sample, 9, "a.b+1", LocalPart);
    RunEndIs(Sample, 9, 14, LocalPart);
  }

  lemma SampleSub()
    ensures forall j :: 15 <= j < 19 ==> InClass(Sample[j], DomainPart)
  {
    ClassOver(Sample, 15, "sub.", DomainPart);
  }

  lemma SampleExample()
    ensures forall j :: 19 <= j < 27 ==> InClass(Sample[j], DomainPart)
  {
    ClassOver(Sample, 19, "example.", DomainPart);
  }

  lemma SampleCo()
    ensures forall j :: 27 <= j < 29 ==> InClass(Sample[j], DomainPart)
  {
    ClassOver(Sample, 27, "co", DomainPart);
  }

  lemma SampleDomainChars()
    ensures forall j :: 15 <= j < 29 ==> InClass(Sample[j], DomainPart)
  {
    SampleSub();
    SampleExample();
    SampleCo();
  }

  lemma SampleDomain()
    ensures RunEnd(Sample, 15, DomainPart) == 29
  {
    SampleDomainChars();
    assert Sample[29] == ',';
    RunEndIs(Sample, 15, 29, DomainPart);
  }

  lemma SampleTld()
    ensures LastTldDot(Sample, 16, 29) == Some(26) && RunEnd(Sample, 27, Letters) == 29
  {
    assert Sample[26] == '.' && Sample[27] == 'c' && Sample[28] == 'o' && Sample[29] == ',';
    assert Sample[30] == ' ';
    assert !IsTldDot(Sample, 28) && !IsTldDot(Sample, 27) && IsTldDot(Sample, 26);
    RunEndIs(Sample, 27, 29, Letters);
  }

  lemma SampleFirst()
    ensures NextMatch(Sample, 0) == Some((9, 29))
  {
    SampleLead();
    NextMatchSkips(Sample, 0, 9);
    SampleLocal();
    SampleDomain();
    SampleTld();
  }

  /** ", " after the match holds no match; nor does "invalid@", whose `@` is followed by a
      comma. */
  lemma SampleInvalid()
    ensures forall p :: 29 <= p < 41 ==> MatchAt(Sample, p).None?
  {
    assert Sample[29] == ',' && Sample[30] == ' ';
    assert Sample[38] == '@' && Sample[39] == ',' && Sample[40] == ' ';
    NoRun(Sample, 29);
    NoRun(Sample, 30);
    SampleInvalidChars();
    NoDomainAfterAt(Sample, 31, 38);
    NoRun(Sample, 39);
    NoRun(Sample, 40);
  }

  lemma SampleInva()
    ensures forall j :: 31 <= j < 35 ==> InClass(Sample[j], LocalPart)
  {
    ClassOver(Sample, 31, "inva", LocalPart);
  }

  lemma SampleLid()
    ensures forall j :: 35 <= j < 38 ==> InClass(Sample[j], LocalPart)
  {
    ClassOver(Sample, 35, "lid", LocalPart);
  }

  lemma SampleInvalidChars()
    ensures forall j :: 31 <= j < 38 ==> InClass(Sample[j], LocalPart)
  {
    SampleInva();
    SampleLid();
  }

  /** "@nodomain" holds no match: no local part before its `@`, no `@` after "nodomain". */
  lemma SampleNoDomain()
    ensures forall p :: 41 <= p <= 50 ==> MatchAt(Sample, p).None?
  {
    assert |Sample| == 50 && Sample[41] == '@';
    NoRun(Sample, 41);
    SampleNoDomainChars();
    NoAtAfterRun(Sample, 42, 50);
  }

  lemma SampleNodo()
    ensures forall j :: 42 <= j < 46 ==> InClass(Sample[j], LocalPart)
  {
    ClassOver(Sample, 42, "nodo", LocalPart);
  }

  lemma SampleMain()
    ensures forall j :: 46 <= j < 50 ==> InClass(Sample[j], LocalPart)
  {
    ClassOver(Sample, 46, "main", LocalPart);
  }

  lemma SampleNoDomainChars()
    ensures forall j :: 42 <= j < 50 ==> InClass(Sample[j], LocalPart)
  {
    SampleNodo();
    SampleMain();
  }

  lemma SampleRest()
    ensures NextMatch(Sample, 29) == None
  {
    SampleInvalid();
    SampleNoDomain();
    NextMatchSkips(Sample, 29, 50);
    assert MatchAt(Sample, 50).None?;
  }

  lemma SampleSpans()
    ensures Spans(Sample, 0) == [(9, 29)]
  {
    SampleFirst();
    SampleRest();
    assert Spans(Sample, 29) == [];
  }

  lemma SampleCut()
    ensures FindEmails(Sample) == [Sample[9..29]]
  {
    SampleSpans();
    var r := FindEmails(Sample);
    assert |r| == 1 && r[0] == Sample[9..29];
  }

  lemma SampleMatched()
    ensures [Sample[9..29]] == ["a.b+1@sub.example.co"]
  {
    assert Sample[9..29] == "a.b+1@sub.example.co";
  }

  /** Of "a.b+1@sub.example.co", "invalid@" and "@nodomain" only the first is an email:
      an `@` needs a local part before it and a domain with a dotted tld after it. */
  lemma SampleMatches()
    ensures FindEmails(Sample) == ["a.b+1@sub.example.co"]
  {
    SampleCut();
    SampleMatched();
  }

  const Twice := "a@b.cc a@b.cc"

  lemma TwiceFirst()
    ensures MatchAt(Twice, 0) == Some(6)
  {
    assert RunEnd(Twice, 0, LocalPart) == 1;
    assert RunEnd(Twice, 2, DomainPart) == 6;
    assert LastTldDot(Twice, 3, 6) == Some(3);
    assert RunEnd(Twice, 4, Letters) == 6;
  }

  lemma TwiceSecond()
    ensures NextMatch(Twice, 6) == Some((7, 13))
  {
    assert MatchAt(Twice, 6) == None by {
      assert RunEnd(Twice, 6, LocalPart) == 6;
    }
    assert MatchAt(Twice, 7) == Some(13) by {
      assert RunEnd(Twice, 7, LocalPart) == 8;
      assert RunEnd(Twice, 9, DomainPart) == 13;
      assert LastTldDot(Twice, 10, 13) == Some(10);
      assert RunEnd(Twice, 11, Letters) == 13;
    }
  }

  lemma TwiceSpans()
    ensures Spans(Twice, 0) == [(0, 6), (7, 13)]
  {
    TwiceFirst();
    TwiceSecond();
    assert MatchAt(Twice, 13) == None;
    assert Spans(Twice, 13) == [];
    assert Spans(Twice, 6) == [(7, 13)];
    assert NextMatch(Twice, 0) == Some((0, 6));
  }

  lemma TwiceCut()
    ensures FindEmails(Twice) == [Twice[0..6], Twice[7..13]]
  {
    TwiceSpans();
    var r := FindEmails(Twice);
    assert |r| == 2 && r[0] == Twice[0..6] && r[1] == Twice[7..13];
  }

  lemma TwiceHalves()
    ensures [Twice[0..6], Twice[7..13]] == ["a@b.cc", "a@b.cc"]
  {
    assert Twice[0..6] == "a@b.cc";
    assert Twice[7..13] == "a@b.cc";
  }

  /** `find_emails_in_text` keeps repeats: each occurrence is reported. */
  lemma TwiceMatches()
    ensures FindEmails(Twice) == ["a@b.cc", "a@b.cc"]
  {
    TwiceCut();
    TwiceHalves();
  }

  const Dotted := "ab@x.yz.c1"

  /** The domain run takes "x.yz.c1" and backs off to the last dot followed by two letters;
      the match is "ab@x.yz". */
  lemma DottedBacksOff()
    ensures MatchAt(Dotted, 0) == Some(7)
  {
    assert RunEnd(Dotted, 0, LocalPart) == 2;
    assert RunEnd(Dotted, 3, DomainPart) == 10;
    assert LastTldDot(Dotted, 4, 10) == Some(4);
    assert RunEnd(Dotted, 5, Letters) == 7;
  }
}
