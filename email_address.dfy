/** The e-mail check of the contact form (validateEmail, js/main.js): one
    anchored regular expression tested against the lower-cased input.

      local part:  [^<>()[\]\\.,;:\s@"]+(\.[^<>()[\]\\.,;:\s@"]+)*   or   ".+"
      domain:      \[ d{1,3} \. d{1,3} \. d{1,3} \. d{1,3} \]           or   ([a-zA-Z\-0-9]+\.)+[a-zA-Z]{2,}

    The ghost predicates below follow the expression piece by piece (each
    concatenation and repetition is an existential split); the executable
    recogniser scans instead (last '@', last '.', leading digits) and is
    proved to accept exactly the strings the expression matches. */
module EmailAddress {
  import opened JsText

  // ---------------------------------------------------------------------
  // Character classes of the expression

  /** [^<>()[\]\\.,;:\s@"] */
  predicate IsAtomChar(c: char) {
    c !in "<>()[]\\.,;:@\"" && !IsJsSpace(c)
  }

  predicate IsDigit(c: char) { '0' <= c <= '9' }

  /** [a-zA-Z] */
  predicate IsAlpha(c: char) { 'a' <= c <= 'z' || 'A' <= c <= 'Z' }

  /** [a-zA-Z\-0-9] */
  predicate IsLabelChar(c: char) { IsAlpha(c) || c == '-' || IsDigit(c) }

  /** The code points `.` refuses to match (no `s` flag): line terminators. */
  predicate IsLineTerminator(c: char) {
    c == '\n' || c == '\r' || c == '\U{2028}' || c == '\U{2029}'
  }

  predicate AllIn(s: string, p: char -> bool) {
    forall i :: 0 <= i < |s| ==> p(s[i])
  }

  /** [p]+ */
  predicate Plus(s: string, p: char -> bool) {
    |s| > 0 && AllIn(s, p)
  }

  /** [a-zA-Z]{2,} */
  predicate TopLevel(s: string) {
    |s| >= 2 && AllIn(s, IsAlpha)
  }

  /** [0-9]{1,3} */
  predicate Octet(s: string) {
    1 <= |s| <= 3 && AllIn(s, IsDigit)
  }

  /** ".+" */
  predicate QuotedLocal(s: string) {
    |s| >= 3 && s[0] == '"' && s[|s| - 1] == '"'
    && forall i :: 0 < i < |s| - 1 ==> !IsLineTerminator(s[i])
  }

  // ---------------------------------------------------------------------
  // The expression, piece by piece

  /** [p]+(\.[p]+)* */
  ghost predicate DotList(s: string, p: char -> bool)
    decreases |s|
  {
    Plus(s, p)
    || exists i :: 0 < i < |s| && s[i] == '.' && Plus(s[..i], p) && DotList(s[i + 1..], p)
  }

  /** ([a-zA-Z\-0-9]+\.)+ */
  ghost predicate LabelsWithDots(s: string)
    decreases |s|
  {
    exists i :: 0 < i < |s| && s[i] == '.' && Plus(s[..i], IsLabelChar)
                && (i + 1 == |s| || LabelsWithDots(s[i + 1..]))
  }

  /** ([a-zA-Z\-0-9]+\.)+[a-zA-Z]{2,} */
  ghost predicate HostName(s: string) {
    exists j :: 0 < j < |s| && LabelsWithDots(s[..j]) && TopLevel(s[j..])
  }

  /** n octets joined by dots: [0-9]{1,3}(\.[0-9]{1,3}){n-1} */
  ghost predicate Octets(s: string, n: nat)
    decreases n
  {
    if n <= 1 then n == 1 && Octet(s)
    else exists i :: 0 < i < |s| && s[i] == '.' && Octet(s[..i]) && Octets(s[i + 1..], n - 1)
  }

  /** \[[0-9]{1,3}\.[0-9]{1,3}\.[0-9]{1,3}\.[0-9]{1,3}\] */
  ghost predicate AddressLiteral(s: string) {
    |s| >= 2 && s[0] == '[' && s[|s| - 1] == ']' && Octets(s[1..|s| - 1], 4)
  }

  ghost predicate LocalPart(s: string) {
    DotList(s, IsAtomChar) || QuotedLocal(s)
  }

  ghost predicate Domain(s: string) {
    AddressLiteral(s) || HostName(s)
  }

  /** (local part)@(domain) with the '@' at index i. */
  ghost predicate MatchesAt(s: string, i: int) {
    0 <= i < |s| && s[i] == '@' && LocalPart(s[..i]) && Domain(s[i + 1..])
  }

  /** The whole anchored expression: ^(local part)@(domain)$ */
  ghost predicate PatternMatches(s: string) {
    exists i :: MatchesAt(s, i)
  }

  // ---------------------------------------------------------------------
  // The recogniser

  function LastIndexOf(s: string, c: char): (k: int)
    ensures -1 <= k < |s|
    ensures k >= 0 ==> s[k] == c
    ensures forall j :: k < j < |s| ==> s[j] != c
  {
    if s == [] then -1
    else if s[|s| - 1] == c then |s| - 1
    else LastIndexOf(s[..|s| - 1], c)
  }

  function IndexOf(s: string, c: char): (k: int)
    ensures -1 <= k < |s|
    ensures k >= 0 ==> s[k] == c
    ensures forall j :: 0 <= j < |s| && (k < 0 || j < k) ==> s[j] != c
  {
    if s == [] then -1
    else if s[0] == c then 0
    else
      var k := IndexOf(s[1..], c);
      if k < 0 then -1 else k + 1
  }

  /** How many digits `s` starts with. */
  function LeadingDigits(s: string): (k: nat)
    ensures k <= |s| && AllIn(s[..k], IsDigit)
    ensures k < |s| ==> !IsDigit(s[k])
  {
    if s == [] || !IsDigit(s[0]) then 0 else 1 + LeadingDigits(s[1..])
  }

  /** Runs of class p separated by single dots: p or '.' throughout, no dot
      at either end, no two dots in a row. */
  predicate ScanDotted(s: string, p: char -> bool) {
    |s| > 0 && s[0] != '.' && s[|s| - 1] != '.'
    && (forall i :: 0 <= i < |s| ==> p(s[i]) || s[i] == '.')
    && (forall i :: 0 < i < |s| && s[i] == '.' ==> s[i - 1] != '.')
  }

  predicate ScanOctets(s: string, n: nat)
    decreases n
  {
    var k := LeadingDigits(s);
    1 <= k <= 3 && n >= 1
    && if n == 1 then k == |s| else k < |s| && s[k] == '.' && ScanOctets(s[k + 1..], n - 1)
  }

  predicate ScanAddressLiteral(s: string) {
    |s| >= 2 && s[0] == '[' && s[|s| - 1] == ']' && ScanOctets(s[1..|s| - 1], 4)
  }

  predicate ScanHostName(s: string) {
    var d := LastIndexOf(s, '.');
    d > 0 && ScanDotted(s[..d], IsLabelChar) && TopLevel(s[d + 1..])
  }

  predicate ScanLocalPart(s: string) {
    ScanDotted(s, IsAtomChar) || QuotedLocal(s)
  }

  predicate ScanDomain(s: string) {
    ScanAddressLiteral(s) || ScanHostName(s)
  }

  /** Split at the last '@' (no domain contains one) and check both halves. */
  predicate Recognise(s: string) {
    var a := LastIndexOf(s, '@');
    a >= 0 && ScanLocalPart(s[..a]) && ScanDomain(s[a + 1..])
  }

  /** validateEmail: the expression tested against the lower-cased input. */
  predicate ValidateEmail(email: string) {
    Recognise(ToLower(email))
  }

  // ---------------------------------------------------------------------
  // The recogniser accepts what the expression matches

  lemma DotListIff(s: string, p: char -> bool)
    requires !p('.')
    ensures DotList(s, p) <==> ScanDotted(s, p)
  {
    if DotList(s, p) { DotListScans(s, p); }
    if ScanDotted(s, p) { ScanIsDotList(s, p); }
  }

  lemma {:induction false} DotListScans(s: string, p: char -> bool)
    requires !p('.') && DotList(s, p)
    ensures ScanDotted(s, p)
    decreases |s|
  {
    if !Plus(s, p) {
      var i :| 0 < i < |s| && s[i] == '.' && Plus(s[..i], p) && DotList(s[i + 1..], p);
      var rest := s[i + 1..];
      DotListScans(rest, p);
      assert s[0] == s[..i][0];
      assert s[|s| - 1] == rest[|rest| - 1];
      forall j | 0 <= j < |s| ensures p(s[j]) || s[j] == '.' {
        if j < i { assert s[j] == s[..i][j]; } else if j > i { assert s[j] == rest[j - i - 1]; }
      }
      forall j | 0 < j < |s| && s[j] == '.' ensures s[j - 1] != '.' {
        if j <= i {
          assert s[j - 1] == s[..i][j - 1];
        } else if j > i + 1 {
          assert s[j] == rest[j - i - 1] && s[j - 1] == rest[j - i - 2];
        }
      }
    }
  }

  lemma {:induction false} ScanIsDotList(s: string, p: char -> bool)
    requires !p('.') && ScanDotted(s, p)
    ensures DotList(s, p)
    decreases |s|
  {
    var i := IndexOf(s, '.');
    if i < 0 {
      assert Plus(s, p);
    } else {
      assert 0 < i < |s| - 1;
      var rest := s[i + 1..];
      assert rest[0] == s[i + 1];
      assert ScanDotted(rest, p) by {
        forall j | 0 <= j < |rest| ensures p(rest[j]) || rest[j] == '.' {
          assert rest[j] == s[j + i + 1];
        }
        forall j | 0 < j < |rest| && rest[j] == '.' ensures rest[j - 1] != '.' {
          assert rest[j] == s[j + i + 1] && rest[j - 1] == s[j + i];
        }
      }
      ScanIsDotList(rest, p);
      assert Plus(s[..i], p);
    }
  }

  lemma {:induction false} LabelsWithDotsEndInDot(t: string)
    requires LabelsWithDots(t)
    ensures |t| > 0 && t[|t| - 1] == '.' && DotList(t[..|t| - 1], IsLabelChar)
    decreases |t|
  {
    var i :| 0 < i < |t| && t[i] == '.' && Plus(t[..i], IsLabelChar)
             && (i + 1 == |t| || LabelsWithDots(t[i + 1..]));
    if i + 1 == |t| {
      assert t[..|t| - 1] == t[..i];
    } else {
      var rest := t[i + 1..];
      LabelsWithDotsEndInDot(rest);
      var u := t[..|t| - 1];
      assert u[..i] == t[..i] && u[i] == '.' && u[i + 1..] == rest[..|rest| - 1];
    }
  }

  lemma {:induction false} DotListThenDotIsLabels(t: string)
    requires |t| > 0 && t[|t| - 1] == '.' && DotList(t[..|t| - 1], IsLabelChar)
    ensures LabelsWithDots(t)
    decreases |t|
  {
    var u := t[..|t| - 1];
    if Plus(u, IsLabelChar) {
      assert t[..|t| - 1] == u;
    } else {
      var i :| 0 < i < |u| && u[i] == '.' && Plus(u[..i], IsLabelChar) && DotList(u[i + 1..], IsLabelChar);
      var rest := t[i + 1..];
      assert rest[..|rest| - 1] == u[i + 1..];
      DotListThenDotIsLabels(rest);
      assert t[..i] == u[..i];
    }
  }

  /** ([a-zA-Z\-0-9]+\.)+ is a dot-separated label list followed by one dot. */
  lemma LabelsWithDotsIff(t: string)
    ensures LabelsWithDots(t) <==> |t| > 0 && t[|t| - 1] == '.' && DotList(t[..|t| - 1], IsLabelChar)
  {
    if LabelsWithDots(t) { LabelsWithDotsEndInDot(t); }
    if |t| > 0 && t[|t| - 1] == '.' && DotList(t[..|t| - 1], IsLabelChar) { DotListThenDotIsLabels(t); }
  }

  lemma HostNameIff(s: string)
    ensures HostName(s) <==> ScanHostName(s)
  {
    var d := LastIndexOf(s, '.');
    if HostName(s) {
      var j :| 0 < j < |s| && LabelsWithDots(s[..j]) && TopLevel(s[j..]);
      LabelsWithDotsIff(s[..j]);
      assert s[j - 1] == s[..j][j - 1];
      forall k | j <= k < |s| ensures s[k] != '.' {
        assert s[k] == s[j..][k - j];
      }
      assert d == j - 1;
      assert s[..j][..j - 1] == s[..d];
      DotListIff(s[..d], IsLabelChar);
    }
    if ScanHostName(s) {
      DotListIff(s[..d], IsLabelChar);
      var t := s[..d + 1];
      assert t[..|t| - 1] == s[..d];
      LabelsWithDotsIff(t);
    }
  }

  lemma OctetsIff(s: string, n: nat)
    ensures Octets(s, n) <==> ScanOctets(s, n)
  {
    if Octets(s, n) { OctetsScan(s, n); }
    if ScanOctets(s, n) { ScanIsOctets(s, n); }
  }

  lemma {:induction false} OctetsScan(s: string, n: nat)
    requires Octets(s, n)
    ensures ScanOctets(s, n)
    decreases n
  {
    if n > 1 {
      var i :| 0 < i < |s| && s[i] == '.' && Octet(s[..i]) && Octets(s[i + 1..], n - 1);
      LeadingDigitsBeforeDot(s, i);
      OctetsScan(s[i + 1..], n - 1);
    }
  }

  lemma {:induction false} ScanIsOctets(s: string, n: nat)
    requires ScanOctets(s, n)
    ensures Octets(s, n)
    decreases n
  {
    var k := LeadingDigits(s);
    if n > 1 {
      ScanIsOctets(s[k + 1..], n - 1);
      assert Octet(s[..k]);
    }
  }

  /** A run of one to three digits followed by a dot is exactly the leading digits. */
  lemma LeadingDigitsBeforeDot(s: string, i: int)
    requires 0 < i < |s| && s[i] == '.' && Octet(s[..i])
    ensures LeadingDigits(s) == i
  {
  }

  ghost predicate NoAt(s: string) {
    forall j :: 0 <= j < |s| ==> s[j] != '@'
  }

  lemma {:induction false} NoAtInOctets(s: string, n: nat)
    requires ScanOctets(s, n)
    ensures NoAt(s)
    decreases n
  {
    var k := LeadingDigits(s);
    assert forall j :: 0 <= j < k ==> s[j] == s[..k][j];
    if n > 1 {
      NoAtInOctets(s[k + 1..], n - 1);
      assert forall j :: k < j < |s| ==> s[j] == s[k + 1..][j - k - 1];
    }
  }

  lemma NoAtInHostName(s: string)
    requires ScanHostName(s)
    ensures NoAt(s)
  {
    var d := LastIndexOf(s, '.');
    assert forall j :: 0 <= j < d ==> s[j] == s[..d][j];
    assert forall j :: d < j < |s| ==> s[j] == s[d + 1..][j - d - 1];
  }

  lemma LocalPartIff(s: string)
    ensures LocalPart(s) <==> ScanLocalPart(s)
  {
    DotListIff(s, IsAtomChar);
  }

  lemma AddressLiteralIff(s: string)
    ensures AddressLiteral(s) <==> ScanAddressLiteral(s)
  {
    if |s| >= 2 {
      OctetsIff(s[1..|s| - 1], 4);
    }
  }

  lemma NoAtInAddressLiteral(s: string)
    requires ScanAddressLiteral(s)
    ensures NoAt(s)
  {
    var inner := s[1..|s| - 1];
    NoAtInOctets(inner, 4);
    assert forall j :: 0 < j < |s| - 1 ==> s[j] == inner[j - 1];
  }

  /** The recogniser's domain check agrees with the expression, and no
      accepted domain contains an '@'. */
  lemma DomainIff(s: string)
    ensures Domain(s) <==> ScanDomain(s)
    ensures Domain(s) ==> NoAt(s)
  {
    HostNameIff(s);
    AddressLiteralIff(s);
    if ScanHostName(s) {
      NoAtInHostName(s);
    }
    if ScanAddressLiteral(s) {
      NoAtInAddressLiteral(s);
    }
  }

  /** An occurrence of c with none after it is the last one. */
  lemma LastIndexOfIs(s: string, c: char, i: int)
    requires 0 <= i < |s| && s[i] == c
    requires forall j :: i < j < |s| ==> s[j] != c
    ensures LastIndexOf(s, c) == i
  {
  }

  lemma LastAt(s: string, i: int)
    requires 0 <= i < |s| && s[i] == '@' && NoAt(s[i + 1..])
    ensures LastIndexOf(s, '@') == i
  {
    assert forall j :: i < j < |s| ==> s[j] == s[i + 1..][j - i - 1];
    LastIndexOfIs(s, '@', i);
  }

  /** A match splits at the last '@', where the recogniser looks. */
  lemma MatchIsRecognised(s: string, i: int)
    requires MatchesAt(s, i)
    ensures Recognise(s)
  {
    DomainIff(s[i + 1..]);
    LastAt(s, i);
    LocalPartIff(s[..i]);
  }

  lemma RecognisedIsMatch(s: string)
    requires Recognise(s)
    ensures MatchesAt(s, LastIndexOf(s, '@'))
  {
    var a := LastIndexOf(s, '@');
    LocalPartIff(s[..a]);
    DomainIff(s[a + 1..]);
  }

  /** The recogniser accepts exactly what the expression matches. */
  lemma RecogniseCorrect(s: string)
    ensures Recognise(s) <==> PatternMatches(s)
  {
    if PatternMatches(s) {
      var i :| MatchesAt(s, i);
      MatchIsRecognised(s, i);
    }
    if Recognise(s) {
      RecognisedIsMatch(s);
    }
  }

  /** validateEmail accepts exactly the inputs whose lower-cased form the
      expression matches. */
  lemma ValidateEmailCorrect(email: string)
    ensures ValidateEmail(email) <==> PatternMatches(ToLower(email))
  {
    RecogniseCorrect(ToLower(email));
  }

  // ---------------------------------------------------------------------
  // Examples

  /** A non-empty run of the letters a-z. */
  predicate IsLowerWord(w: string) {
    |w| > 0 && forall i :: 0 <= i < |w| ==> 'a' <= w[i] <= 'z'
  }

  lemma LowerWordFacts(w: string)
    requires IsLowerWord(w)
    ensures ScanDotted(w, IsAtomChar) && ScanDotted(w, IsLabelChar)
    ensures |w| >= 2 ==> TopLevel(w)
    ensures forall i :: 0 <= i < |w| ==> w[i] != '@' && w[i] != '.' && !IsUpperAscii(w[i])
  {
  }

  lemma RecogniseAt(s: string, a: int)
    requires 0 <= a < |s| && s[a] == '@' && NoAt(s[a + 1..])
    requires ScanLocalPart(s[..a]) && ScanDomain(s[a + 1..])
    ensures Recognise(s)
  {
    LastAt(s, a);
  }

  /** A string of letters, '@' and '.' is already lower-case. */
  lemma LowerOfWords(s: string)
    requires forall i :: 0 <= i < |s| ==> 'a' <= s[i] <= 'z' || s[i] == '@' || s[i] == '.'
    ensures ToLower(s) == s
  {
  }

  lemma LowerOfPlainAddress(local: string, host: string, top: string)
    requires IsLowerWord(local) && IsLowerWord(host) && IsLowerWord(top)
    ensures ToLower(local + "@" + host + "." + top) == local + "@" + host + "." + top
  {
    LowerOfWords(local + "@" + host + "." + top);
  }

  lemma PlainHostName(host: string, top: string)
    requires IsLowerWord(host) && IsLowerWord(top) && |top| >= 2
    ensures ScanDomain(host + "." + top) && NoAt(host + "." + top)
  {
    var d := host + "." + top;
    LowerWordFacts(host);
    LowerWordFacts(top);
    assert d[..|host|] == host && d[|host| + 1..] == top;
    LastIndexOfIs(d, '.', |host|);
  }

  lemma PlainLocalAt(local: string, d: string)
    requires IsLowerWord(local) && ScanDomain(d) && NoAt(d)
    ensures Recognise(local + "@" + d)
  {
    var s := local + "@" + d;
    LowerWordFacts(local);
    assert s[..|local|] == local && s[|local| + 1..] == d;
    RecogniseAt(s, |local|);
  }

  /** word@word.tld, with a top-level label of two letters or more, passes. */
  lemma AcceptsPlainAddress(local: string, host: string, top: string)
    requires IsLowerWord(local) && IsLowerWord(host) && IsLowerWord(top) && |top| >= 2
    ensures ValidateEmail(local + "@" + host + "." + top)
  {
    var d := host + "." + top;
    assert local + "@" + d == local + "@" + host + "." + top;
    PlainHostName(host, top);
    PlainLocalAt(local, d);
    LowerOfPlainAddress(local, host, top);
  }

  /** Without an '@' nothing passes. */
  lemma RejectsWithoutAt(email: string)
    requires forall i :: 0 <= i < |email| ==> email[i] != '@'
    ensures !ValidateEmail(email)
  {
    assert LastIndexOf(ToLower(email), '@') == -1;
  }

  /** If the text after the last '@' is no domain, the whole is rejected. */
  lemma RejectedAt(local: string, d: string)
    requires IsLowerWord(local) && NoAt(d) && !ScanDomain(d)
    ensures !Recognise(local + "@" + d)
  {
    var s := local + "@" + d;
    assert s[|local|] == '@' && s[|local| + 1..] == d;
    LastAt(s, |local|);
  }

  /** word@word (no dot in the domain) fails. */
  lemma RejectsDotlessDomain(local: string, host: string)
    requires IsLowerWord(local) && IsLowerWord(host)
    ensures !ValidateEmail(local + "@" + host)
  {
    LowerWordFacts(host);
    assert LastIndexOf(host, '.') == -1;
    RejectedAt(local, host);
    LowerWordFacts(local);
    LowerOfWords(local + "@" + host);
  }

  lemma OneLetterTopLevelIsNoDomain(host: string, c: char)
    requires IsLowerWord(host) && 'a' <= c <= 'z'
    ensures NoAt(host + "." + [c]) && !ScanDomain(host + "." + [c])
  {
    var d := host + "." + [c];
    LowerWordFacts(host);
    LastIndexOfIs(d, '.', |host|);
    assert d[|host| + 1..] == [c];
  }

  /** word@word.x (a one-letter top-level label) fails. */
  lemma RejectsOneLetterTopLevel(local: string, host: string, c: char)
    requires IsLowerWord(local) && IsLowerWord(host) && 'a' <= c <= 'z'
    ensures !ValidateEmail(local + "@" + host + "." + [c])
  {
    var d := host + "." + [c];
    assert local + "@" + d == local + "@" + host + "." + [c];
    OneLetterTopLevelIsNoDomain(host, c);
    RejectedAt(local, d);
    LowerOfPlainAddress(local, host, [c]);
  }

  // The cases the contact form is documented with, one lemma each.

  lemma ExampleTwoLetterTopLevel()
    ensures ValidateEmail("a@bc.de")
  {
    assert "a" + "@" + "bc" + "." + "de" == "a@bc.de";
    AcceptsPlainAddress("a", "bc", "de");
  }

  lemma ExampleOneLetterTopLevel()
    ensures !ValidateEmail("a@b.c")
  {
    assert "a" + "@" + "b" + "." + ['c'] == "a@b.c";
    RejectsOneLetterTopLevel("a", "b", 'c');
  }

  lemma ExampleDotlessDomain()
    ensures !ValidateEmail("a@b")
  {
    assert "a" + "@" + "b" == "a@b";
    RejectsDotlessDomain("a", "b");
  }

  lemma ExampleNoAt()
    ensures !ValidateEmail("not-an-email")
  {
    RejectsWithoutAt("not-an-email");
  }

  /** The input is lower-cased before the test, so capitals do not matter. */
  lemma ExampleUpperCase()
    ensures ValidateEmail("A@BC.DE")
  {
    var upper, lower := "A@BC.DE", "a@bc.de";
    var r := ToLower(upper);
    assert |r| == |lower|;
    forall i | 0 <= i < |r| ensures r[i] == lower[i] {
      assert r[i] == LowerChar(upper[i]);
    }
    assert r == lower;
    ExampleTwoLetterTopLevel();
  }
}
