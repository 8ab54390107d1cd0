/** Name constraints (`nameconstraints.go`): subtrees and the decision. Text is ASCII. */
module NameConstraintRules {
  import opened CertTypes

  // ---------------------------------------------------------------------------------------------
  // DNS subtrees as strings
  // ---------------------------------------------------------------------------------------------

  function LowerChar(c: char): char {
    if 'A' <= c <= 'Z' then (c as int + 32) as char else c
  }

  function Lower(s: string): (r: string)
    ensures |r| == |s| && forall i :: 0 <= i < |s| ==> r[i] == LowerChar(s[i])
  {
    seq(|s|, i requires 0 <= i < |s| => LowerChar(s[i]))
  }

  function TrimDot(s: string): string {
    if s != "" && s[|s| - 1] == '.' then s[..|s| - 1] else s
  }

  /** Names and constraints are compared without one trailing dot and in lower case. */
  function Norm(s: string): string {
    Lower(TrimDot(s))
  }

  predicate HasSuffix(s: string, t: string) {
    |t| <= |s| && s[|s| - |t|..] == t
  }

  predicate DnsInSubtree(name: string, constraint: string) {
    var n, c := Norm(name), Norm(constraint);
    if c == "" then true
    else if c[0] == '.' then HasSuffix(n, c)
    else n == c || HasSuffix(n, "." + c)
  }

  // ---------------------------------------------------------------------------------------------
  // DNS subtrees as labels
  // ---------------------------------------------------------------------------------------------

  /** The labels of a name; text without a dot is one label. */
  function Labels(s: string): (r: seq<string>)
    ensures |r| > 0
  {
    if s == "" then [""] else if s[0] == '.' then [""] + Labels(s[1..]) else Prepend(s[0], Labels(s[1..]))
  }

  function Prepend(c: char, labels: seq<string>): (r: seq<string>)
    requires |labels| > 0
    ensures |r| == |labels|
  {
    [[c] + labels[0]] + labels[1..]
  }

  function Dotted(labels: seq<string>): string
    requires |labels| > 0
  {
    if |labels| == 1 then labels[0] else labels[0] + ("." + Dotted(labels[1..]))
  }

  lemma {:induction false} DottedLabels(s: string)
    ensures Dotted(Labels(s)) == s
  {
    if s != "" {
      DottedLabels(s[1..]);
      var rest := Labels(s[1..]);
      if s[0] == '.' {
        assert ([""] + rest)[1..] == rest;
        assert Dotted(Labels(s)) == "" + ("." + s[1..]);
      } else {
        DottedPrepend(s[0], rest);
        assert [s[0]] + s[1..] == s;
      }
    }
  }

  lemma DottedPrepend(c: char, labels: seq<string>)
    requires |labels| > 0
    ensures Dotted(Prepend(c, labels)) == [c] + Dotted(labels)
  {
    assert Prepend(c, labels)[1..] == labels[1..];
    if |labels| > 1 {
      Reassociate([c], labels[0], "." + Dotted(labels[1..]));
    }
  }

  lemma Reassociate<T>(a: seq<T>, b: seq<T>, c: seq<T>)
    ensures a + b + c == a + (b + c)
  {}

  lemma PrependToFront(c: char, x: seq<string>, y: seq<string>)
    requires |x| > 0
    ensures Prepend(c, x + y) == Prepend(c, x) + y
  {
    assert (x + y)[1..] == x[1..] + y;
    Reassociate([[c] + x[0]], x[1..], y);
  }

  lemma {:induction false} LabelsOfJoin(a: string, b: string)
    ensures Labels(a + ("." + b)) == Labels(a) + Labels(b)
    decreases |a|
  {
    var whole := a + ("." + b);
    if a == "" {
      assert whole == "." + b && whole[1..] == b;
    } else {
      assert whole[0] == a[0] && whole[1..] == a[1..] + ("." + b);
      LabelsOfJoin(a[1..], b);
      if a[0] == '.' {
        Reassociate([""], Labels(a[1..]), Labels(b));
      } else {
        PrependToFront(a[0], Labels(a[1..]), Labels(b));
      }
    }
  }

  lemma {:induction false} DottedJoin(x: seq<string>, y: seq<string>)
    requires |x| > 0 && |y| > 0
    ensures Dotted(x + y) == Dotted(x) + ("." + Dotted(y))
  {
    assert (x + y)[1..] == x[1..] + y;
    if |x| == 1 {
      assert x[1..] + y == y;
    } else {
      DottedJoin(x[1..], y);
      DottedStep(x[0], Dotted(x[1..]), Dotted(y));
    }
  }

  lemma DottedStep(first: string, mid: string, last: string)
    ensures first + ("." + (mid + ("." + last))) == (first + ("." + mid)) + ("." + last)
  {}

  predicate LabelSuffix(t: seq<string>, s: seq<string>) {
    |t| <= |s| && s[|s| - |t|..] == t
  }

  /** Section 4.2.1.10 of RFC 5280 under the leading-dot rule: a constraint covers a name when its labels
      end the name's labels, properly so when the constraint starts with a dot. */
  predicate InSubtree(name: string, constraint: string) {
    var n, c := Norm(name), Norm(constraint);
    if c == "" then true
    else if c[0] == '.' then LabelSuffix(Labels(c[1..]), Labels(n)) && Labels(c[1..]) != Labels(n)
    else LabelSuffix(Labels(c), Labels(n))
  }

  /** A dot before the suffix makes it a whole number of labels, fewer than the name has. */
  lemma DotSuffixIsProperLabelSuffix(n: string, c: string)
    ensures HasSuffix(n, "." + c) <==> LabelSuffix(Labels(c), Labels(n)) && Labels(c) != Labels(n)
  {
    if HasSuffix(n, "." + c) {
      DotSuffixCutsLabels(n, c);
    }
    if LabelSuffix(Labels(c), Labels(n)) && Labels(c) != Labels(n) {
      LabelsCutAtDot(n, c);
    }
  }

  lemma DotSuffixCutsLabels(n: string, c: string)
    requires HasSuffix(n, "." + c)
    ensures LabelSuffix(Labels(c), Labels(n)) && |Labels(c)| < |Labels(n)|
  {
    var before := n[..|n| - |"." + c|];
    assert n == before + ("." + c);
    LabelsOfJoin(before, c);
  }

  lemma LabelsCutAtDot(n: string, c: string)
    requires LabelSuffix(Labels(c), Labels(n)) && Labels(c) != Labels(n)
    ensures HasSuffix(n, "." + c)
  {
    var k := |Labels(n)| - |Labels(c)|;
    var before := Labels(n)[..k];
    assert Labels(n) == before + Labels(c);
    assert k > 0;
    DottedJoin(before, Labels(c));
    DottedLabels(n);
    DottedLabels(c);
    assert n == Dotted(before) + ("." + c);
  }

  /** The string test is exactly the label-wise rule. */
  lemma DnsTestIsLabelwise(name: string, constraint: string)
    ensures DnsInSubtree(name, constraint) <==> InSubtree(name, constraint)
  {
    var n, c := Norm(name), Norm(constraint);
    if c != "" {
      if c[0] == '.' {
        assert c == "." + c[1..];
        DotSuffixIsProperLabelSuffix(n, c[1..]);
      } else {
        DotSuffixIsProperLabelSuffix(n, c);
        DottedLabels(n);
        DottedLabels(c);
      }
    }
  }

  lemma SuffixTransitive(a: string, b: string, c: string)
    requires HasSuffix(a, b) && HasSuffix(b, c)
    ensures HasSuffix(a, c)
  {
    assert a[|a| - |b|..][|b| - |c|..] == a[|a| - |c|..];
  }

  /** Subtrees nest: a constraint inside another one, read as a name, covers no more names than it. */
  lemma SubtreesNest(name: string, inner: string, outer: string)
    requires DnsInSubtree(name, inner) && DnsInSubtree(inner, outer)
    ensures DnsInSubtree(name, outer)
  {
    var n, a, c := Norm(name), Norm(inner), Norm(outer);
    if c != "" {
      var tail := if c[0] == '.' then c else "." + c;
      assert a != "";
      if a != c && n != a {
        var link := if a[0] == '.' then a else "." + a;
        assert HasSuffix(link, a);
        assert HasSuffix(a, tail);
        SuffixTransitive(link, a, tail);
        SuffixTransitive(n, link, tail);
      }
    }
  }

  // ---------------------------------------------------------------------------------------------
  // One name against a CA
  // ---------------------------------------------------------------------------------------------

  datatype IPRange = IPRange(address: Bytes, mask: Bytes)

  /** `contains(range, ip)` stands for `net.IPNet.Contains`. */
  type Contains = (IPRange, Bytes) -> bool

  datatype Uri = Uri(text: string, host: string, hostIsIP: bool)

  datatype Constraints = Constraints(
    permittedDns: seq<string>, excludedDns: seq<string>,
    permittedIp: seq<IPRange>, excludedIp: seq<IPRange>,
    permittedEmail: seq<string>, excludedEmail: seq<string>,
    permittedUri: seq<string>, excludedUri: seq<string>
  )

  /** The subject alternative names; a URI pointer may be nil. */
  datatype Names = Names(dns: seq<string>, ips: seq<Bytes>, emails: seq<string>, uris: seq<Option<Uri>>)

  datatype Verdict<+C> = Allowed | Excluded(constraint: C) | Outside

  datatype Refusal =
    | DnsRefused(name: string, why: Verdict<string>)
    | IpRefused(ip: Bytes, reason: Verdict<IPRange>)
    | EmailRefused(email: string, why: Verdict<string>)
    | UriRefused(uri: Uri, why: Verdict<string>)
    | UriWithoutHost(uri: Uri)

  function Find<C>(list: seq<C>, covers: C -> bool): Option<C> {
    if list == [] then None else if covers(list[0]) then Some(list[0]) else Find(list[1..], covers)
  }

  lemma {:induction false} FindExact<C>(list: seq<C>, covers: C -> bool)
    ensures Find(list, covers) == None <==> forall c <- list :: !covers(c)
    ensures Find(list, covers).Some? ==>
              exists i :: 0 <= i < |list| && Find(list, covers) == Some(list[i]) && covers(list[i])
                          && forall j :: 0 <= j < i ==> !covers(list[j])
  {
    if list != [] && !covers(list[0]) {
      FindExact(list[1..], covers);
      assert list == [list[0]] + list[1..];
      if Find(list[1..], covers).Some? {
        var i :| 0 <= i < |list[1..]| && Find(list[1..], covers) == Some(list[1..][i]) && covers(list[1..][i])
                 && forall j :: 0 <= j < i ==> !covers(list[1..][j]);
        assert list[i + 1] == list[1..][i];
        assert forall j :: 1 <= j < i + 1 ==> list[j] == list[1..][j - 1];
      }
    }
  }

  /** The two loops every `check...Against` runs: excluded first, then permitted. */
  function Against<C>(permitted: seq<C>, excluded: seq<C>, covers: C -> bool): Verdict<C> {
    var hit := Find(excluded, covers);
    if hit.Some? then Excluded(hit.value)
    else if permitted == [] || Find(permitted, covers).Some? then Allowed
    else Outside
  }

  /** Out of every excluded subtree, and in a permitted one when there are any. */
  predicate AllowedBy<C(==)>(permitted: seq<C>, excluded: seq<C>, covers: C -> bool) {
    (forall c <- excluded :: !covers(c)) && (permitted == [] || exists c <- permitted :: covers(c))
  }

  /** What the two loops decide; an exclusion wins, and the one reported is the first that applies. */
  lemma AgainstExact<C>(permitted: seq<C>, excluded: seq<C>, covers: C -> bool)
    ensures Against(permitted, excluded, covers).Allowed? <==> AllowedBy(permitted, excluded, covers)
    ensures Against(permitted, excluded, covers).Excluded? <==> exists c <- excluded :: covers(c)
    ensures Against(permitted, excluded, covers).Excluded? ==>
              exists i :: 0 <= i < |excluded| && excluded[i] == Against(permitted, excluded, covers).constraint
                          && covers(excluded[i]) && forall j :: 0 <= j < i ==> !covers(excluded[j])
  {
    FindExact(excluded, covers);
    FindExact(permitted, covers);
  }

  function Dns(name: string): string -> bool {
    (c: string) => DnsInSubtree(name, c)
  }

  function Ip(contains: Contains, ip: Bytes): IPRange -> bool {
    (range: IPRange) => contains(range, ip)
  }

  /** The part after the last `@`, the whole text when there is none. */
  function Domain(email: string): string {
    if email == "" then "" else if '@' in email then AfterLastAt(email) else email
  }

  function AfterLastAt(email: string): (r: string)
    requires '@' in email
    ensures '@' !in r && |r| < |email| && email[|email| - |r| - 1] == '@' && email[|email| - |r|..] == r
    decreases |email|
  {
    if '@' in email[1..] then AfterLastAt(email[1..]) else email[1..]
  }

  /** A constraint with an `@` names one address; any other is a domain. */
  predicate EmailInSubtree(email: string, constraint: string) {
    if '@' in constraint then Lower(email) == Lower(constraint) else DnsInSubtree(Domain(email), constraint)
  }

  /** The same letter, in either case. */
  predicate SameLetter(a: char, b: char) {
    || a == b
    || ('A' <= a <= 'Z' && b as int == a as int + 32)
    || ('A' <= b <= 'Z' && a as int == b as int + 32)
  }

  predicate SameText(a: string, b: string) {
    |a| == |b| && forall i :: 0 <= i < |a| ==> SameLetter(a[i], b[i])
  }

  lemma LowerIsSameText(a: string, b: string)
    ensures Lower(a) == Lower(b) <==> SameText(a, b)
  {
    if Lower(a) == Lower(b) {
      forall i | 0 <= i < |a| ensures SameLetter(a[i], b[i]) {
        assert Lower(a)[i] == Lower(b)[i];
      }
    }
  }

  /** Names and constraints are compared without regard to case and to one trailing dot, and to nothing else. */
  lemma NormExactly(a: string, b: string)
    ensures Norm(a) == Norm(b) <==>
              SameText(if a != "" && a[|a| - 1] == '.' then a[..|a| - 1] else a,
                       if b != "" && b[|b| - 1] == '.' then b[..|b| - 1] else b)
  {
    LowerIsSameText(TrimDot(a), TrimDot(b));
  }

  lemma {:induction false} DomainFollowsLastAt(local: string, domain: string)
    requires '@' !in domain
    ensures Domain(local + "@" + domain) == domain
    decreases |local|
  {
    var email := local + "@" + domain;
    assert email[|local|] == '@';
    if local == "" {
      assert email[1..] == domain;
    } else {
      assert email[1..] == local[1..] + "@" + domain;
      assert email[1..][|local| - 1] == '@';
      DomainFollowsLastAt(local[1..], domain);
    }
  }

  /** An email name meets a constraint with an `@` exactly when it is that address, in letters of either case, and any
      other constraint exactly when the labels behind its last `@` are in that subtree. */
  lemma EmailExactly(local: string, domain: string, constraint: string)
    requires '@' !in domain
    ensures var email := local + "@" + domain;
            EmailInSubtree(email, constraint) <==>
              if '@' in constraint then SameText(email, constraint) else InSubtree(domain, constraint)
  {
    LowerIsSameText(local + "@" + domain, constraint);
    DomainFollowsLastAt(local, domain);
    DnsTestIsLabelwise(domain, constraint);
  }

  /** Without an `@` the whole name is the domain. */
  lemma EmailWithoutAt(email: string, constraint: string)
    requires '@' !in email && '@' !in constraint
    ensures EmailInSubtree(email, constraint) <==> InSubtree(email, constraint)
  {
    DnsTestIsLabelwise(email, constraint);
  }

  function Email(email: string): string -> bool {
    (c: string) => EmailInSubtree(email, c)
  }

  function CheckDNS(ca: Constraints, name: string): Option<Refusal> {
    var why := Against(ca.permittedDns, ca.excludedDns, Dns(name));
    if why.Allowed? then None else Some(DnsRefused(name, why))
  }

  function CheckIP(ca: Constraints, contains: Contains, ip: Bytes): Option<Refusal> {
    var why := Against(ca.permittedIp, ca.excludedIp, Ip(contains, ip));
    if why.Allowed? then None else Some(IpRefused(ip, why))
  }

  function CheckEmail(ca: Constraints, email: string): Option<Refusal> {
    var why := Against(ca.permittedEmail, ca.excludedEmail, Email(email));
    if why.Allowed? then None else Some(EmailRefused(email, why))
  }

  function CheckURI(ca: Constraints, uri: Option<Uri>): Option<Refusal> {
    if uri == None || (ca.permittedUri == [] && ca.excludedUri == []) then None
    else if uri.value.host == "" || uri.value.hostIsIP then Some(UriWithoutHost(uri.value))
    else
      var why := Against(ca.permittedUri, ca.excludedUri, Dns(uri.value.host));
      if why.Allowed? then None else Some(UriRefused(uri.value, why))
  }

  // ---------------------------------------------------------------------------------------------
  // The whole certificate
  // ---------------------------------------------------------------------------------------------

  function FirstRefusal<T>(names: seq<T>, check: T -> Option<Refusal>): Option<Refusal> {
    if names == [] then None
    else if check(names[0]).Some? then check(names[0])
    else FirstRefusal(names[1..], check)
  }

  lemma {:induction false} FirstRefusalExact<T>(names: seq<T>, check: T -> Option<Refusal>)
    ensures FirstRefusal(names, check) == None <==> forall n <- names :: check(n) == None
  {
    if names != [] {
      assert names == [names[0]] + names[1..];
      FirstRefusalExact(names[1..], check);
    }
  }

  /** The common name stands in for a DNS name when there is no DNS, IP or email name and it has a dot.
      URI names do not count. */
  predicate FallsBackToCN(commonName: string, names: Names) {
    names.dns == [] && names.ips == [] && names.emails == [] && '.' in commonName
  }

  function DnsNames(commonName: string, names: Names): seq<string> {
    if FallsBackToCN(commonName, names) then [commonName] else names.dns
  }

  function Or(a: Option<Refusal>, b: Option<Refusal>): Option<Refusal> {
    if a.Some? then a else b
  }

  function CheckNameConstraints(ca: Option<Constraints>, contains: Contains, commonName: string, names: Names)
    : Option<Refusal>
  {
    if ca == None then None
    else
      Or(FirstRefusal(DnsNames(commonName, names), (n: string) => CheckDNS(ca.value, n)),
      Or(FirstRefusal(names.ips, (ip: Bytes) => CheckIP(ca.value, contains, ip)),
      Or(FirstRefusal(names.emails, (e: string) => CheckEmail(ca.value, e)),
         FirstRefusal(names.uris, (u: Option<Uri>) => CheckURI(ca.value, u)))))
  }

  predicate Accepts(ca: Option<Constraints>, contains: Contains, commonName: string, names: Names) {
    CheckNameConstraints(ca, contains, commonName, names) == None
  }

  predicate DnsOk(ca: Constraints, name: string) {
    AllowedBy(ca.permittedDns, ca.excludedDns, Dns(name))
  }

  predicate IpOk(ca: Constraints, contains: Contains, ip: Bytes) {
    AllowedBy(ca.permittedIp, ca.excludedIp, Ip(contains, ip))
  }

  predicate EmailOk(ca: Constraints, email: string) {
    AllowedBy(ca.permittedEmail, ca.excludedEmail, Email(email))
  }

  /** A URI is judged by its host, and without URI constraints not at all. */
  predicate UriOk(ca: Constraints, uri: Option<Uri>) {
    uri.Some? && (ca.permittedUri != [] || ca.excludedUri != []) ==>
      uri.value.host != "" && !uri.value.hostIsIP && AllowedBy(ca.permittedUri, ca.excludedUri, Dns(uri.value.host))
  }

  predicate SansOk(ca: Constraints, contains: Contains, names: Names) {
    && (forall n <- names.dns :: DnsOk(ca, n))
    && (forall ip <- names.ips :: IpOk(ca, contains, ip))
    && (forall e <- names.emails :: EmailOk(ca, e))
    && (forall u <- names.uris :: UriOk(ca, u))
  }

  lemma ChecksExact(ca: Constraints, contains: Contains)
    ensures forall n :: CheckDNS(ca, n) == None <==> DnsOk(ca, n)
    ensures forall ip :: CheckIP(ca, contains, ip) == None <==> IpOk(ca, contains, ip)
    ensures forall e :: CheckEmail(ca, e) == None <==> EmailOk(ca, e)
    ensures forall u :: CheckURI(ca, u) == None <==> UriOk(ca, u)
  {
    forall n ensures CheckDNS(ca, n) == None <==> DnsOk(ca, n) {
      AgainstExact(ca.permittedDns, ca.excludedDns, Dns(n));
    }
    forall ip ensures CheckIP(ca, contains, ip) == None <==> IpOk(ca, contains, ip) {
      AgainstExact(ca.permittedIp, ca.excludedIp, Ip(contains, ip));
    }
    forall e ensures CheckEmail(ca, e) == None <==> EmailOk(ca, e) {
      AgainstExact(ca.permittedEmail, ca.excludedEmail, Email(e));
    }
    forall u ensures CheckURI(ca, u) == None <==> UriOk(ca, u) {
      if u.Some? {
        AgainstExact(ca.permittedUri, ca.excludedUri, Dns(u.value.host));
      }
    }
  }

  /** A certificate is accepted exactly when every name avoids every excluded subtree of its kind and
      lies in a permitted one if there are any, the common name included when it stands in. */
  lemma AcceptsExactly(ca: Constraints, contains: Contains, commonName: string, names: Names)
    ensures Accepts(Some(ca), contains, commonName, names) <==>
              && SansOk(ca, contains, names)
              && (names.dns == [] && names.ips == [] && names.emails == [] && '.' in commonName ==>
                    DnsOk(ca, commonName))
  {
    ChecksExact(ca, contains);
    FirstRefusalExact(DnsNames(commonName, names), (n: string) => CheckDNS(ca, n));
    FirstRefusalExact(names.ips, (ip: Bytes) => CheckIP(ca, contains, ip));
    FirstRefusalExact(names.emails, (e: string) => CheckEmail(ca, e));
    FirstRefusalExact(names.uris, (u: Option<Uri>) => CheckURI(ca, u));
  }

  // ---------------------------------------------------------------------------------------------
  // Order and growth
  // ---------------------------------------------------------------------------------------------

  predicate Within<T(==)>(a: seq<T>, b: seq<T>) {
    forall x <- a :: x in b
  }

  predicate NamesWithin(a: Names, b: Names) {
    Within(a.dns, b.dns) && Within(a.ips, b.ips) && Within(a.emails, b.emails) && Within(a.uris, b.uris)
  }

  predicate ExcludesWithin(a: Constraints, b: Constraints) {
    Within(a.excludedDns, b.excludedDns) && Within(a.excludedIp, b.excludedIp)
    && Within(a.excludedEmail, b.excludedEmail) && Within(a.excludedUri, b.excludedUri)
  }

  predicate PermitsWithin(a: Constraints, b: Constraints) {
    Within(a.permittedDns, b.permittedDns) && Within(a.permittedIp, b.permittedIp)
    && Within(a.permittedEmail, b.permittedEmail) && Within(a.permittedUri, b.permittedUri)
  }

  predicate SamePermits(a: Constraints, b: Constraints) {
    PermitsWithin(a, b) && PermitsWithin(b, a)
  }

  lemma AllowedShrinks<C>(permitted: seq<C>, excluded: seq<C>, permitted': seq<C>, excluded': seq<C>, covers: C -> bool)
    requires AllowedBy(permitted', excluded', covers)
    requires Within(excluded, excluded') && Within(permitted, permitted') && Within(permitted', permitted)
    ensures AllowedBy(permitted, excluded, covers)
  {
    if permitted != [] {
      assert permitted[0] in permitted';
      var c :| c in permitted' && covers(c);
      assert c in permitted;
    }
  }

  /** Fewer exclusions and fewer names, the permitted subtrees the same: what was fine stays fine. */
  lemma SansShrink(ca: Constraints, ca': Constraints, contains: Contains, names: Names, names': Names)
    requires SamePermits(ca, ca') && ExcludesWithin(ca, ca') && NamesWithin(names, names')
    requires SansOk(ca', contains, names')
    ensures SansOk(ca, contains, names)
  {
    forall n | n in names.dns ensures DnsOk(ca, n) {
      AllowedShrinks(ca.permittedDns, ca.excludedDns, ca'.permittedDns, ca'.excludedDns, Dns(n));
    }
    forall ip | ip in names.ips ensures IpOk(ca, contains, ip) {
      AllowedShrinks(ca.permittedIp, ca.excludedIp, ca'.permittedIp, ca'.excludedIp, Ip(contains, ip));
    }
    forall e | e in names.emails ensures EmailOk(ca, e) {
      AllowedShrinks(ca.permittedEmail, ca.excludedEmail, ca'.permittedEmail, ca'.excludedEmail, Email(e));
    }
    forall u | u in names.uris ensures UriOk(ca, u) {
      UriShrinks(ca, ca', u);
    }
  }

  lemma UriShrinks(ca: Constraints, ca': Constraints, uri: Option<Uri>)
    requires SamePermits(ca, ca') && ExcludesWithin(ca, ca') && UriOk(ca', uri)
    ensures UriOk(ca, uri)
  {
    if uri.Some? && (ca.permittedUri != [] || ca.excludedUri != []) {
      assert ca.permittedUri != [] ==> ca.permittedUri[0] in ca'.permittedUri;
      assert ca.excludedUri != [] ==> ca.excludedUri[0] in ca'.excludedUri;
      AllowedShrinks(ca.permittedUri, ca.excludedUri, ca'.permittedUri, ca'.excludedUri, Dns(uri.value.host));
    }
  }

  /** Adding names or exclusions turns a refusal into an acceptance exactly when the refusal was about a
      common name that stood in for a DNS name and no longer does. */
  lemma GrowthAcceptsOnlyByDroppingTheCN(ca: Constraints, ca': Constraints, contains: Contains, commonName: string,
                                         names: Names, names': Names)
    requires SamePermits(ca, ca') && ExcludesWithin(ca, ca') && NamesWithin(names, names')
    requires Accepts(Some(ca'), contains, commonName, names')
    ensures Accepts(Some(ca), contains, commonName, names) <==>
              (FallsBackToCN(commonName, names) ==> DnsOk(ca, commonName))
  {
    AcceptsExactly(ca', contains, commonName, names');
    AcceptsExactly(ca, contains, commonName, names);
    SansShrink(ca, ca', contains, names, names');
  }

  /** So once a DNS, IP or email name is present, growth never turns a refusal into an acceptance. */
  lemma GrowthKeepsRefusals(ca: Constraints, ca': Constraints, contains: Contains, commonName: string,
                            names: Names, names': Names)
    requires SamePermits(ca, ca') && ExcludesWithin(ca, ca') && NamesWithin(names, names')
    requires names.dns != [] || names.ips != [] || names.emails != []
    requires !Accepts(Some(ca), contains, commonName, names)
    ensures !Accepts(Some(ca'), contains, commonName, names')
  {
    if Accepts(Some(ca'), contains, commonName, names') {
      GrowthAcceptsOnlyByDroppingTheCN(ca, ca', contains, commonName, names, names');
      assert false;
    }
  }

  /** The answer depends on the sets of names and subtrees, never on their order or repetition. */
  lemma OrderDoesNotMatter(ca: Constraints, ca': Constraints, contains: Contains, commonName: string,
                           names: Names, names': Names)
    requires SamePermits(ca, ca') && ExcludesWithin(ca, ca') && ExcludesWithin(ca', ca)
    requires NamesWithin(names, names') && NamesWithin(names', names)
    ensures Accepts(Some(ca), contains, commonName, names) <==> Accepts(Some(ca'), contains, commonName, names')
  {
    SameEmptiness(names.dns, names'.dns);
    SameEmptiness(names.ips, names'.ips);
    SameEmptiness(names.emails, names'.emails);
    if Accepts(Some(ca'), contains, commonName, names') {
      OrderOneWay(ca, ca', contains, commonName, names, names');
    }
    if Accepts(Some(ca), contains, commonName, names) {
      OrderOneWay(ca', ca, contains, commonName, names', names);
    }
  }

  lemma OrderOneWay(ca: Constraints, ca': Constraints, contains: Contains, commonName: string,
                    names: Names, names': Names)
    requires SamePermits(ca, ca') && ExcludesWithin(ca, ca') && NamesWithin(names, names')
    requires FallsBackToCN(commonName, names) <==> FallsBackToCN(commonName, names')
    requires Accepts(Some(ca'), contains, commonName, names')
    ensures Accepts(Some(ca), contains, commonName, names)
  {
    AcceptsExactly(ca', contains, commonName, names');
    GrowthAcceptsOnlyByDroppingTheCN(ca, ca', contains, commonName, names, names');
    if FallsBackToCN(commonName, names) {
      AllowedShrinks(ca.permittedDns, ca.excludedDns, ca'.permittedDns, ca'.excludedDns, Dns(commonName));
    }
  }

  lemma SameEmptiness<T>(a: seq<T>, b: seq<T>)
    requires Within(a, b) && Within(b, a)
    ensures a == [] <==> b == []
  {
    assert a != [] ==> a[0] in b;
    assert b != [] ==> b[0] in a;
  }

  /** The exception is real: a refused common name is accepted once any email name is added. */
  lemma AddingANameCanAccept(ca: Constraints, contains: Contains, commonName: string, email: string)
    requires '.' in commonName && !DnsOk(ca, commonName) && EmailOk(ca, email)
    ensures !Accepts(Some(ca), contains, commonName, Names([], [], [], []))
    ensures Accepts(Some(ca), contains, commonName, Names([], [], [email], []))
  {
    AcceptsExactly(ca, contains, commonName, Names([], [], [], []));
    AcceptsExactly(ca, contains, commonName, Names([], [], [email], []));
  }

  /** URI names never lift the check of the common name. */
  lemma UriNamesKeepTheCN(ca: Constraints, contains: Contains, commonName: string, uris: seq<Option<Uri>>)
    requires '.' in commonName && !DnsOk(ca, commonName)
    ensures !Accepts(Some(ca), contains, commonName, Names([], [], [], uris))
  {
    AcceptsExactly(ca, contains, commonName, Names([], [], [], uris));
  }
}
