/**
 * The email check of recommender/full_deployment.py:52-54: re.fullmatch of
 *   ^\w+([\.-]?\w+)*@\w+([\.-]?\w+)*(\.\w{2,})+$
 * as a declarative characterisation of the language, a one-pass recogniser, and the proof that
 * the two agree.
 */
module EmailFormat {

  /** Python's \w, restricted to ASCII: letters, digits and underscore. */
  predicate IsWordChar(c: char)
  {
    ('a' <= c <= 'z') || ('A' <= c <= 'Z') || ('0' <= c <= '9') || c == '_'
  }

  /** The optional separator [\.-] between word runs. */
  predicate IsSeparator(c: char)
  {
    c == '.' || c == '-'
  }

  /**
   * The language of \w+([\.-]?\w+)*: word characters and separators, starting and ending with a
   * word character, with no two separators side by side.
   */
  ghost predicate Segmented(s: string)
  {
    && |s| > 0
    && IsWordChar(s[0])
    && IsWordChar(s[|s| - 1])
    && (forall i :: 0 <= i < |s| ==> IsWordChar(s[i]) || IsSeparator(s[i]))
    && (forall i :: 1 <= i < |s| && IsSeparator(s[i - 1]) ==> IsWordChar(s[i]))
  }

  /**
   * The language of \w+([\.-]?\w+)*(\.\w{2,})+: a segmented string, a '.', and at least two word
   * characters that run to the end.
   */
  ghost predicate DomainShape(d: string)
  {
    exists k: nat :: LastLabelAt(d, k)
  }

  /** d[k] is the '.' before the final label: segmented before it, two or more word characters after. */
  ghost predicate LastLabelAt(d: string, k: nat)
  {
    0 < k && k + 2 < |d| && d[k] == '.' && Segmented(d[..k]) &&
    (forall j :: k < j < |d| ==> IsWordChar(d[j]))
  }

  /** The whole pattern: a segmented local part, '@', and a domain of the shape above. */
  ghost predicate ValidEmail(s: string)
  {
    exists a: nat :: EmailSplitAt(s, a)
  }

  ghost predicate EmailSplitAt(s: string, a: nat)
  {
    a < |s| && s[a] == '@' && Segmented(s[..a]) && DomainShape(s[a + 1..])
  }

  /**
   * The recogniser's states. DomainWord records whether the domain's last separator so far was a
   * '.', and how many word characters follow it (or the whole domain when it has none).
   */
  datatype State =
    | LocalStart
    | LocalWord
    | LocalSep
    | DomainStart
    | DomainWord(dotted: bool, run: nat)
    | DomainSep(dot: bool)
    | Dead

  function Step(st: State, c: char): State
  {
    match st
    case LocalStart => if IsWordChar(c) then LocalWord else Dead
    case LocalWord =>
      if IsWordChar(c) then LocalWord
      else if IsSeparator(c) then LocalSep
      else if c == '@' then DomainStart
      else Dead
    case LocalSep => if IsWordChar(c) then LocalWord else Dead
    case DomainStart => if IsWordChar(c) then DomainWord(false, 1) else Dead
    case DomainWord(dotted, run) =>
      if IsWordChar(c) then DomainWord(dotted, run + 1)
      else if IsSeparator(c) then DomainSep(c == '.')
      else Dead
    case DomainSep(dot) => if IsWordChar(c) then DomainWord(dot, 1) else Dead
    case Dead => Dead
  }

  /** The state after reading s from left to right. */
  function Scan(s: string): State
  {
    if |s| == 0 then LocalStart else Step(Scan(s[..|s| - 1]), s[|s| - 1])
  }

  predicate Accepting(st: State)
  {
    st.DomainWord? && st.dotted && st.run >= 2
  }

  /** re.fullmatch(email_regex, email) is not None: the email is of the pattern's language. */
  function MatchesEmail(s: string): (ok: bool)
    ensures ok <==> ValidEmail(s)
  {
    ScanRecognisesPattern(s);
    Accepting(Scan(s))
  }

  /** The one-pass recogniser accepts exactly the strings the pattern describes. */
  lemma ScanRecognisesPattern(s: string)
    ensures Accepting(Scan(s)) <==> ValidEmail(s)
  {
    ScanDescribes(s);
    if Accepting(Scan(s)) {
      AcceptedIsValid(s);
    }
    if ValidEmail(s) {
      ValidIsAccepted(s);
    }
  }

  // ---------------------------------------------------------------------------------------------
  // What each state says about the prefix read so far

  /** d is a segmented domain prefix whose trailing word run has length run, after a '.' when dotted. */
  ghost predicate DomainSoFar(d: string, dotted: bool, run: nat)
  {
    && Segmented(d)
    && 1 <= run <= |d|
    && (forall j :: |d| - run <= j < |d| ==> IsWordChar(d[j]))
    && (run < |d| ==> IsSeparator(d[|d| - run - 1]))
    && (dotted <==> run < |d| && d[|d| - run - 1] == '.')
  }

  /** p is a segmented local part, '@', and a domain prefix as DomainSoFar describes it. */
  ghost predicate DomainWordSplit(p: string, a: nat, dotted: bool, run: nat)
  {
    a < |p| && p[a] == '@' && Segmented(p[..a]) && DomainSoFar(p[a + 1..], dotted, run)
  }

  /** p is a segmented local part, '@', a segmented domain prefix, and one separator. */
  ghost predicate DomainSepSplit(p: string, a: nat, dot: bool)
  {
    a + 2 < |p| && p[a] == '@' && Segmented(p[..a]) && Segmented(p[a + 1..|p| - 1]) &&
    IsSeparator(p[|p| - 1]) && (dot <==> p[|p| - 1] == '.')
  }

  ghost predicate Describes(st: State, p: string)
  {
    match st
    case LocalStart => p == []
    case LocalWord => Segmented(p)
    case LocalSep => |p| >= 2 && IsSeparator(p[|p| - 1]) && Segmented(p[..|p| - 1])
    case DomainStart => |p| >= 2 && p[|p| - 1] == '@' && Segmented(p[..|p| - 1])
    case DomainWord(dotted, run) => exists a: nat :: DomainWordSplit(p, a, dotted, run)
    case DomainSep(dot) => exists a: nat :: DomainSepSplit(p, a, dot)
    case Dead => true
  }

  // ---------------------------------------------------------------------------------------------
  // Facts about segmented strings

  lemma SingleWord(c: char)
    requires IsWordChar(c)
    ensures Segmented([c])
  {
  }

  lemma ExtendWord(s: string, c: char)
    requires Segmented(s) && IsWordChar(c)
    ensures Segmented(s + [c])
  {
    var t := s + [c];
    forall i | 1 <= i < |t| && IsSeparator(t[i - 1]) ensures IsWordChar(t[i]) {
      if i < |s| {
        assert t[i - 1] == s[i - 1] && t[i] == s[i];
      }
    }
  }

  lemma ExtendSeparatorWord(s: string, sep: char, c: char)
    requires Segmented(s) && IsSeparator(sep) && IsWordChar(c)
    ensures Segmented(s + [sep] + [c])
  {
    var t := s + [sep] + [c];
    assert forall i :: 0 <= i < |s| ==> t[i] == s[i];
    assert t[|s|] == sep && t[|s| + 1] == c;
    forall i | 1 <= i < |t| && IsSeparator(t[i - 1]) ensures IsWordChar(t[i]) {
      if i < |s| {
        assert t[i - 1] == s[i - 1];
      }
    }
  }

  /** Cutting a segmented string just before a separator leaves a segmented string. */
  lemma PrefixBeforeSeparator(s: string, k: nat)
    requires Segmented(s) && k < |s| && IsSeparator(s[k])
    ensures 0 < k && Segmented(s[..k])
  {
    assert k != 0;
  }

  /** Cutting a segmented string just after a word character leaves a segmented string. */
  lemma PrefixAfterWord(s: string, k: nat)
    requires Segmented(s) && 0 < k <= |s| && IsWordChar(s[k - 1])
    ensures Segmented(s[..k])
  {
  }

  /** No '@' occurs in a segmented string. */
  lemma NoAtInSegmented(s: string, i: nat)
    requires Segmented(s) && i < |s|
    ensures s[i] != '@'
  {
  }

  // ---------------------------------------------------------------------------------------------
  // Soundness: each state describes the prefix that leads to it

  lemma {:induction false} ScanDescribes(p: string)
    ensures Describes(Scan(p), p)
    decreases |p|
  {
    if |p| == 0 {
      return;
    }
    var q := p[..|p| - 1];
    var c := p[|p| - 1];
    assert p == q + [c];
    ScanDescribes(q);
    match Scan(q)
    case LocalStart => StepFromLocalStart(q, c);
    case LocalWord => StepFromLocalWord(q, c);
    case LocalSep => StepFromLocalSep(q, c);
    case DomainStart => StepFromDomainStart(q, c);
    case DomainWord(dotted, run) => StepFromDomainWord(q, c, dotted, run);
    case DomainSep(dot) => StepFromDomainSep(q, c, dot);
    case Dead =>
  }

  lemma StepFromLocalStart(q: string, c: char)
    requires Describes(LocalStart, q)
    ensures Describes(Step(LocalStart, c), q + [c])
  {
    if IsWordChar(c) {
      SingleWord(c);
      assert q + [c] == [c];
    }
  }

  lemma StepFromLocalWord(q: string, c: char)
    requires Describes(LocalWord, q)
    ensures Describes(Step(LocalWord, c), q + [c])
  {
    var p := q + [c];
    assert p[..|p| - 1] == q;
    if IsWordChar(c) {
      ExtendWord(q, c);
    }
  }

  lemma StepFromLocalSep(q: string, c: char)
    requires Describes(LocalSep, q)
    ensures Describes(Step(LocalSep, c), q + [c])
  {
    if IsWordChar(c) {
      var r := q[..|q| - 1];
      assert q == r + [q[|q| - 1]];
      ExtendSeparatorWord(r, q[|q| - 1], c);
    }
  }

  lemma StepFromDomainStart(q: string, c: char)
    requires Describes(DomainStart, q)
    ensures Describes(Step(DomainStart, c), q + [c])
  {
    if IsWordChar(c) {
      var p := q + [c];
      var a := |q| - 1;
      assert p[..a] == q[..a];
      assert p[a + 1..] == [c];
      SingleWord(c);
      assert DomainWordSplit(p, a, false, 1);
    }
  }

  lemma StepFromDomainWord(q: string, c: char, dotted: bool, run: nat)
    requires Describes(DomainWord(dotted, run), q)
    ensures Describes(Step(DomainWord(dotted, run), c), q + [c])
  {
    var a: nat :| DomainWordSplit(q, a, dotted, run);
    if IsWordChar(c) {
      DomainWordThenWord(q, a, c, dotted, run);
    } else if IsSeparator(c) {
      DomainWordThenSeparator(q, a, c, dotted, run);
    }
  }

  lemma DomainWordThenWord(q: string, a: nat, c: char, dotted: bool, run: nat)
    requires DomainWordSplit(q, a, dotted, run) && IsWordChar(c)
    ensures DomainWordSplit(q + [c], a, dotted, run + 1)
  {
    var p := q + [c];
    var d := q[a + 1..];
    assert p[..a] == q[..a];
    assert p[a + 1..] == d + [c];
    ExtendWord(d, c);
    DomainRunGrows(d, c, dotted, run);
  }

  lemma DomainWordThenSeparator(q: string, a: nat, c: char, dotted: bool, run: nat)
    requires DomainWordSplit(q, a, dotted, run) && IsSeparator(c)
    ensures DomainSepSplit(q + [c], a, c == '.')
  {
    var p := q + [c];
    assert p[..a] == q[..a];
    assert p[a + 1..|p| - 1] == q[a + 1..];
  }

  lemma DomainRunGrows(d: string, c: char, dotted: bool, run: nat)
    requires DomainSoFar(d, dotted, run) && IsWordChar(c) && Segmented(d + [c])
    ensures DomainSoFar(d + [c], dotted, run + 1)
  {
    var e := d + [c];
    assert forall j :: 0 <= j < |d| ==> e[j] == d[j];
  }

  lemma StepFromDomainSep(q: string, c: char, dot: bool)
    requires Describes(DomainSep(dot), q)
    ensures Describes(Step(DomainSep(dot), c), q + [c])
  {
    if IsWordChar(c) {
      var a: nat :| DomainSepSplit(q, a, dot);
      DomainSepThenWord(q, a, c, dot);
    }
  }

  lemma DomainSepThenWord(q: string, a: nat, c: char, dot: bool)
    requires DomainSepSplit(q, a, dot) && IsWordChar(c)
    ensures DomainWordSplit(q + [c], a, dot, 1)
  {
    var p := q + [c];
    var d := q[a + 1..|q| - 1];
    var sep := q[|q| - 1];
    assert p[..a] == q[..a];
    assert p[a + 1..] == d + [sep] + [c];
    ExtendSeparatorWord(d, sep, c);
    var e := d + [sep] + [c];
    assert e[|e| - 2] == sep && e[|e| - 1] == c;
  }

  /** An accepting state describes a string of the pattern's language. */
  lemma AcceptedIsValid(s: string)
    requires Accepting(Scan(s)) && Describes(Scan(s), s)
    ensures ValidEmail(s)
  {
    var run := Scan(s).run;
    var a: nat :| DomainWordSplit(s, a, true, run);
    AcceptedDomain(s[a + 1..], run);
    assert EmailSplitAt(s, a);
  }

  lemma AcceptedDomain(d: string, run: nat)
    requires DomainSoFar(d, true, run) && run >= 2
    ensures DomainShape(d)
  {
    var k := |d| - run - 1;
    PrefixBeforeSeparator(d, k);
    assert LastLabelAt(d, k);
  }

  // ---------------------------------------------------------------------------------------------
  // Completeness: strings of the language drive the recogniser into an accepting state

  lemma {:induction false} ScanSegmented(s: string)
    requires Segmented(s)
    ensures Scan(s) == LocalWord
    decreases |s|
  {
    var q := s[..|s| - 1];
    if |q| == 0 {
      return;
    }
    if IsWordChar(q[|q| - 1]) {
      PrefixAfterWord(s, |q|);
      ScanSegmented(q);
    } else {
      PrefixBeforeSeparator(s, |q| - 1);
      var r := q[..|q| - 1];
      assert s[..|q| - 1] == r;
      ScanSegmented(r);
      assert Scan(q) == LocalSep;
    }
  }

  lemma {:induction false} ScanDomain(l: string, d: string)
    requires Segmented(l) && Segmented(d)
    ensures Scan(l + ['@'] + d).DomainWord?
    decreases |d|
  {
    var s := l + ['@'] + d;
    var q := d[..|d| - 1];
    assert s[..|s| - 1] == l + ['@'] + q;
    if |q| == 0 {
      assert l + ['@'] + q == l + ['@'];
      assert (l + ['@'])[..|l|] == l;
      ScanSegmented(l);
      assert Scan(l + ['@']) == DomainStart;
    } else if IsWordChar(q[|q| - 1]) {
      PrefixAfterWord(d, |q|);
      ScanDomain(l, q);
    } else {
      PrefixBeforeSeparator(d, |q| - 1);
      var r := q[..|q| - 1];
      assert d[..|q| - 1] == r;
      ScanDomain(l, r);
      assert (l + ['@'] + q)[..|l + ['@'] + q| - 1] == l + ['@'] + r;
      assert Scan(l + ['@'] + q).DomainSep?;
    }
  }

  lemma ValidIsAccepted(s: string)
    requires ValidEmail(s) && Describes(Scan(s), s)
    ensures Accepting(Scan(s))
  {
    var a: nat :| EmailSplitAt(s, a);
    var d := s[a + 1..];
    var k: nat :| LastLabelAt(d, k);
    DomainPrefixAndTail(d, k);
    ScanEmailSplit(s, a);
    var b: nat :| DomainWordSplit(s, b, Scan(s).dotted, Scan(s).run);
    SameAt(s, a, b);
    RunAfterLastDot(d, k, Scan(s).dotted, Scan(s).run);
  }

  lemma ScanEmailSplit(s: string, a: nat)
    requires a < |s| && s[a] == '@' && Segmented(s[..a]) && Segmented(s[a + 1..])
    ensures Scan(s).DomainWord?
  {
    assert s == s[..a] + ['@'] + s[a + 1..];
    ScanDomain(s[..a], s[a + 1..]);
  }

  /** Two splits of a string at '@' whose both sides are free of '@' are the same split. */
  lemma SameAt(s: string, a: nat, b: nat)
    requires a < |s| && s[a] == '@' && Segmented(s[..a]) && Segmented(s[a + 1..])
    requires b < |s| && s[b] == '@' && Segmented(s[..b]) && Segmented(s[b + 1..])
    ensures a == b
  {
    if b < a {
      NoAtInSegmented(s[b + 1..], a - b - 1);
    }
  }

  /** The recogniser's run and dot flag on a domain of the pattern's shape are those of its final label. */
  lemma RunAfterLastDot(d: string, k: nat, dotted: bool, run: nat)
    requires LastLabelAt(d, k) && DomainSoFar(d, dotted, run)
    ensures dotted && run >= 2
  {
  }

  /** A domain of the pattern's shape is itself segmented. */
  lemma DomainPrefixAndTail(d: string, k: nat)
    requires LastLabelAt(d, k)
    ensures Segmented(d)
  {
    var p := d[..k];
    assert forall i :: 0 <= i < k ==> d[i] == p[i];
    forall i | 1 <= i < |d| && IsSeparator(d[i - 1]) ensures IsWordChar(d[i]) {
      if i < k {
        assert p[i - 1] == d[i - 1] && p[i] == d[i];
      }
    }
  }

  // ---------------------------------------------------------------------------------------------
  // Examples

  /** An ordinary address is accepted. */
  lemma AcceptedExample()
    ensures MatchesEmail("john.doe@mail.com")
  {
    var s := "john.doe@mail.com";
    var d := s[9..];
    assert d == "mail.com";
    assert d[..4] == "mail";
    assert Segmented("mail");
    assert LastLabelAt(d, 4);
    assert s[..8] == "john.doe";
    assert Segmented("john.doe");
    assert EmailSplitAt(s, 8);
  }

  /** Without an '@' there is nothing to accept. */
  lemma RejectsWithoutAt(s: string)
    requires forall i :: 0 <= i < |s| ==> s[i] != '@'
    ensures !MatchesEmail(s)
  {
  }

  /** A final label of fewer than two characters, or one that follows a '-', is rejected. */
  lemma RejectsShortOrDashedFinalLabel(s: string, j: nat)
    requires j < |s| && (s[j] == '-' || (s[j] == '.' && j + 2 >= |s|))
    requires forall i :: j < i < |s| ==> IsWordChar(s[i])
    ensures !MatchesEmail(s)
  {
  }

  /** Two separators side by side anywhere before the final label are rejected. */
  lemma RejectsDoubledSeparator(s: string, j: nat)
    requires j + 1 < |s| && IsSeparator(s[j]) && IsSeparator(s[j + 1])
    ensures !MatchesEmail(s)
  {
    if ValidEmail(s) {
      var a: nat :| EmailSplitAt(s, a);
      var d := s[a + 1..];
      var k: nat :| LastLabelAt(d, k);
      DomainPrefixAndTail(d, k);
      assert false;
    }
  }
}
