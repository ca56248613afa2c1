/**
 The unique-handle search and the account-creation retry, written alike in
 src/atproto-identity/atproto-identity.service.ts and src/auth/auth.service.ts.
 */
module HandleSearch {
  import opened Basics

  const MAX_FIRST_SEGMENT: nat := 18
  const MAX_SLUG_LENGTH: nat := 16
  const MAX_ATTEMPTS: nat := 99
  const MAX_CREATE_ATTEMPTS: nat := 5

  /** What the PDS answers when asked whether a handle is free. */
  datatype Probe = Free | Taken | ProbeError

  datatype HandleError = SlugRequired | SlugEmpty | NothingLeft | ProbeFailed | NoHandleFree

  // ---------------------------------------------------------------- the candidates

  function TrimStart(s: string): string {
    if s != "" && IsSpace(s[0]) then TrimStart(s[1..]) else s
  }

  /** Cuts a trailing run of characters that satisfy `drop`. */
  function CutEnd(s: string, drop: char -> bool): (r: string)
    ensures r <= s && (r != "" ==> !drop(r[|r| - 1]))
    ensures forall i :: |r| <= i < |s| ==> drop(s[i])
  {
    if s != "" && drop(s[|s| - 1]) then CutEnd(s[..|s| - 1], drop) else s
  }

  function Trim(s: string): string {
    CutEnd(TrimStart(s), IsSpace)
  }

  lemma {:induction false} TrimStartCuts(s: string) returns (left: string)
    ensures s == left + TrimStart(s) && forall c :: c in left ==> IsSpace(c)
    ensures TrimStart(s) != "" ==> !IsSpace(TrimStart(s)[0])
  {
    left := "";
    if s != "" && IsSpace(s[0]) {
      left := TrimStartCuts(s[1..]);
      left := [s[0]] + left;
    }
  }

  /** Trimming takes the white space off both ends and nothing else. */
  lemma TrimExactly(s: string) returns (left: string, right: string)
    ensures s == left + Trim(s) + right
    ensures (forall c :: c in left ==> IsSpace(c)) && (forall c :: c in right ==> IsSpace(c))
    ensures Trim(s) != "" ==> !IsSpace(Trim(s)[0]) && !IsSpace(Trim(s)[|Trim(s)| - 1])
  {
    left := TrimStartCuts(s);
    var rest := TrimStart(s);
    right := CutsEnd(rest, IsSpace);
    var kept := CutEnd(rest, IsSpace);
    assert left + (kept + right) == left + kept + right;
    assert kept != "" ==> kept[0] == rest[0];
  }

  lemma CutsEnd(s: string, drop: char -> bool) returns (right: string)
    ensures s == CutEnd(s, drop) + right && forall c :: c in right ==> drop(c)
  {
    right := s[|CutEnd(s, drop)|..];
  }

  /** The trimmed slug, cut to 16 characters, without trailing hyphens. */
  function Base(slug: string): (base: string)
    ensures |base| <= MAX_SLUG_LENGTH && base <= Trim(slug)
    ensures base != "" ==> base[|base| - 1] != '-'
    ensures forall i :: |base| <= i < |Trim(slug)| && i < MAX_SLUG_LENGTH ==> Trim(slug)[i] == '-'
  {
    var trimmed := Trim(slug);
    var cut := if |trimmed| > MAX_SLUG_LENGTH then trimmed[..MAX_SLUG_LENGTH] else trimmed;
    CutEnd(cut, c => c == '-')
  }

  function Decimal(n: nat): (s: string)
    ensures |s| >= 1 && (n < 10 <==> |s| == 1) && (n < 100 ==> |s| <= 2)
  {
    var digit := ['0' + (n % 10) as char];
    if n < 10 then digit else Decimal(n / 10) + digit
  }

  function ReadDecimal(s: string): int {
    if s == "" then 0 else ReadDecimal(s[..|s| - 1]) * 10 + (s[|s| - 1] as int - '0' as int)
  }

  /** A suffix is its number in decimal. */
  lemma {:induction false} DecimalReads(n: nat)
    ensures ReadDecimal(Decimal(n)) == n
    ensures forall c :: c in Decimal(n) ==> '0' <= c <= '9'
  {
    var s := Decimal(n);
    assert s[..|s| - 1] == (if n < 10 then "" else Decimal(n / 10)) && s[|s| - 1] as int - '0' as int == n % 10;
    if n >= 10 {
      DecimalReads(n / 10);
    }
  }

  /** The segment before the domain: the base itself, then the base with 1, 2, ... appended. */
  function Segment(base: string, k: nat): string {
    if k == 0 then base else base + Decimal(k)
  }

  function Candidate(base: string, k: nat, domain: string): string {
    Segment(base, k) + domain
  }

  lemma {:induction false} DecimalInjective(a: nat, b: nat)
    requires Decimal(a) == Decimal(b)
    ensures a == b
  {
    var da, db := ['0' + (a % 10) as char], ['0' + (b % 10) as char];
    assert Decimal(a)[|Decimal(a)| - 1] == da[0] && Decimal(b)[|Decimal(b)| - 1] == db[0];
    assert a % 10 == b % 10;
    if a >= 10 && b >= 10 {
      assert Decimal(a)[..|Decimal(a)| - 1] == Decimal(a / 10) && Decimal(b)[..|Decimal(b)| - 1] == Decimal(b / 10);
      DecimalInjective(a / 10, b / 10);
    }
  }

  /** No two candidates are the same handle. */
  lemma CandidatesDistinct(base: string, domain: string, j: nat, k: nat)
    requires Candidate(base, j, domain) == Candidate(base, k, domain)
    ensures j == k
  {
    var a, b := Segment(base, j), Segment(base, k);
    assert |a| == |b|;
    assert a == (a + domain)[..|a|] == (b + domain)[..|b|] == b;
    if j > 0 && k > 0 {
      assert a[|base|..] == Decimal(j) && b[|base|..] == Decimal(k);
      DecimalInjective(j, k);
    }
  }

  // ---------------------------------------------------------------- the search

  /** The search from candidate `k` on. The candidates are distinct, so one answer per handle covers a
      changing world. */
  function SearchFrom(base: string, domain: string, probe: string -> Probe, k: nat): Outcome<string, HandleError>
    requires k <= MAX_ATTEMPTS
    decreases MAX_ATTEMPTS - k
  {
    if k == MAX_ATTEMPTS then Throws(NoHandleFree)
    else
      match probe(Candidate(base, k, domain))
      case Free => Ok(Candidate(base, k, domain))
      case ProbeError => Throws(ProbeFailed)
      case Taken => SearchFrom(base, domain, probe, k + 1)
  }

  function Search(slug: string, domain: string, probe: string -> Probe): Outcome<string, HandleError> {
    if slug == "" then Throws(SlugRequired)
    else if Trim(slug) == "" then Throws(SlugEmpty)
    else if Base(slug) == "" then Throws(NothingLeft)
    else SearchFrom(Base(slug), domain, probe, 0)
  }

  method GenerateUniqueHandle(slug: string, domain: string, probe: string -> Probe)
    returns (result: Outcome<string, HandleError>, probes: nat)
    ensures result == Search(slug, domain, probe)
    ensures probes <= MAX_ATTEMPTS
    ensures result == Throws(NoHandleFree) ==> probes == MAX_ATTEMPTS
    ensures result.Ok? ==> probes > 0 && result.value == Candidate(Base(slug), probes - 1, domain)
  {
    probes := 0;
    if slug == "" {
      return Throws(SlugRequired), probes;
    }
    if Trim(slug) == "" {
      return Throws(SlugEmpty), probes;
    }
    var base := Base(slug);
    if base == "" {
      return Throws(NothingLeft), probes;
    }
    var handle := base + domain;
    var attempt := 0;
    while attempt < MAX_ATTEMPTS
      invariant 0 <= attempt <= MAX_ATTEMPTS && probes == attempt
      invariant handle == Candidate(base, attempt, domain)
      invariant Search(slug, domain, probe) == SearchFrom(base, domain, probe, attempt)
    {
      probes := probes + 1;
      match probe(handle) {
        case Free => return Ok(handle), probes;
        case ProbeError => return Throws(ProbeFailed), probes;
        case Taken =>
      }
      attempt := attempt + 1;
      handle := base + Decimal(attempt) + domain;
    }
    return Throws(NoHandleFree), probes;
  }

  ghost predicate AllTaken(base: string, domain: string, probe: string -> Probe, from: nat, to: nat) {
    forall j :: from <= j < to ==> probe(Candidate(base, j, domain)) == Taken
  }

  lemma {:induction false} SearchFromExactly(base: string, domain: string, probe: string -> Probe, k: nat, n: nat)
    requires k <= n < MAX_ATTEMPTS
    ensures SearchFrom(base, domain, probe, k) == Ok(Candidate(base, n, domain)) <==>
      AllTaken(base, domain, probe, k, n) && probe(Candidate(base, n, domain)) == Free
    decreases MAX_ATTEMPTS - k
  {
    if probe(Candidate(base, k, domain)) == Taken {
      if k < n {
        SearchFromExactly(base, domain, probe, k + 1, n);
      } else {
        OkIsLater(base, domain, probe, k + 1, n);
      }
    } else if Candidate(base, k, domain) == Candidate(base, n, domain) {
      CandidatesDistinct(base, domain, k, n);
    }
  }

  /** Whatever the search returns is one of the candidates still to come. */
  lemma {:induction false} OkIsLater(base: string, domain: string, probe: string -> Probe, k: nat, before: nat)
    requires before < k <= MAX_ATTEMPTS
    ensures SearchFrom(base, domain, probe, k) != Ok(Candidate(base, before, domain))
    decreases MAX_ATTEMPTS - k
  {
    if k < MAX_ATTEMPTS {
      OkIsLater(base, domain, probe, k + 1, before);
      if Candidate(base, k, domain) == Candidate(base, before, domain) {
        CandidatesDistinct(base, domain, k, before);
      }
    }
  }

  lemma {:induction false} GivesUpExactly(base: string, domain: string, probe: string -> Probe, k: nat)
    requires k <= MAX_ATTEMPTS
    ensures SearchFrom(base, domain, probe, k) == Throws(NoHandleFree)
      <==> AllTaken(base, domain, probe, k, MAX_ATTEMPTS)
    decreases MAX_ATTEMPTS - k
  {
    if k < MAX_ATTEMPTS {
      GivesUpExactly(base, domain, probe, k + 1);
    }
  }

  /** First fit: candidate `n` of the 99 is returned exactly when it is free and all before it are taken;
      the search gives up exactly when all 99 are taken. */
  lemma FirstFreeCandidate(slug: string, domain: string, probe: string -> Probe, n: nat)
    requires Base(slug) != "" && n < MAX_ATTEMPTS
    ensures Search(slug, domain, probe) == Ok(Candidate(Base(slug), n, domain)) <==>
      AllTaken(Base(slug), domain, probe, 0, n) && probe(Candidate(Base(slug), n, domain)) == Free
    ensures Search(slug, domain, probe) == Throws(NoHandleFree)
      <==> AllTaken(Base(slug), domain, probe, 0, MAX_ATTEMPTS)
  {
    BaseNeedsSlug(slug);
    SearchFromExactly(Base(slug), domain, probe, 0, n);
    GivesUpExactly(Base(slug), domain, probe, 0);
  }

  lemma BaseNeedsSlug(slug: string)
    requires Base(slug) != ""
    ensures slug != "" && Trim(slug) != ""
  {
  }

  lemma {:induction false} FoundIsCandidate(base: string, domain: string, probe: string -> Probe, k: nat)
    returns (n: nat)
    requires k <= MAX_ATTEMPTS && SearchFrom(base, domain, probe, k).Ok?
    ensures k <= n < MAX_ATTEMPTS && SearchFrom(base, domain, probe, k).value == Candidate(base, n, domain)
    decreases MAX_ATTEMPTS - k
  {
    n := k;
    if probe(Candidate(base, k, domain)) == Taken {
      n := FoundIsCandidate(base, domain, probe, k + 1);
    }
  }

  /** What is returned fits the PDS's limit of 18 characters before the domain. */
  lemma HandleFits(slug: string, domain: string, probe: string -> Probe)
    requires Search(slug, domain, probe).Ok?
    ensures var handle := Search(slug, domain, probe).value;
      |domain| < |handle| <= MAX_FIRST_SEGMENT + |domain| && handle[|handle| - |domain|..] == domain
  {
    var n := FoundIsCandidate(Base(slug), domain, probe, 0);
    var segment := Segment(Base(slug), n);
    assert (segment + domain)[|segment|..] == domain;
  }

  // ---------------------------------------------------------------- creating the account

  /** How the PDS and the store answer one creation attempt. */
  datatype Answer = Created(stored: bool) | HandleTaken | EmailTaken | OtherError

  /** One round of the retry loop: the world the search sees, and the answers that follow. */
  datatype Round = Round(probe: string -> Probe, answer: Answer)

  datatype Creation = Identity(handle: string) | NoIdentity | Failed

  /** A round after which the loop goes round again: the handle was taken between check and creation. */
  predicate LosesRace(slug: string, domain: string, round: Round) {
    Search(slug, domain, round.probe).Ok? && round.answer == HandleTaken
  }

  function FirstNot(test: Round -> bool, rounds: seq<Round>, n: nat): (first: nat)
    requires n <= |rounds|
    ensures n <= first <= |rounds|
    decreases |rounds| - n
  {
    if n == |rounds| || !test(rounds[n]) then n else FirstNot(test, rounds, n + 1)
  }

  lemma {:induction false} FirstNotIsFirst(test: Round -> bool, rounds: seq<Round>, n: nat)
    requires n <= |rounds|
    ensures var first := FirstNot(test, rounds, n);
      (forall m :: n <= m < first ==> test(rounds[m])) && (first < |rounds| ==> !test(rounds[first]))
    decreases |rounds| - n
  {
    if n < |rounds| && test(rounds[n]) {
      FirstNotIsFirst(test, rounds, n + 1);
    }
  }

  /** The first round from `n` on that is not tried again. */
  function Decisive(slug: string, domain: string, rounds: seq<Round>, n: nat): (last: nat)
    requires n <= |rounds|
    ensures n <= last <= |rounds|
  {
    FirstNot(round => LosesRace(slug, domain, round), rounds, n)
  }

  lemma DecisiveIsFirst(slug: string, domain: string, rounds: seq<Round>, n: nat)
    requires n <= |rounds|
    ensures var last := Decisive(slug, domain, rounds, n);
      && (forall m :: n <= m < last ==> LosesRace(slug, domain, rounds[m]))
      && (last < |rounds| ==> !LosesRace(slug, domain, rounds[last]))
  {
    var test := (round: Round) => LosesRace(slug, domain, round);
    FirstNotIsFirst(test, rounds, n);
    forall m | n <= m < Decisive(slug, domain, rounds, n)
      ensures LosesRace(slug, domain, rounds[m])
    {
      assert test(rounds[m]);
    }
  }

  /** `lenient` is the login path, which lets a missing slug and a taken email pass without an identity. */
  method CreateAccount(slug: string, domain: string, rounds: seq<Round>, lenient: bool)
    returns (result: Creation, creates: nat, accounts: nat)
    requires |rounds| == MAX_CREATE_ATTEMPTS
    ensures var last := Decisive(slug, domain, rounds, 0);
      if lenient && slug == "" then result == NoIdentity && creates == 0 && accounts == 0
      else if last == |rounds| then result == Failed && creates == MAX_CREATE_ATTEMPTS && accounts == 0
      else if Search(slug, domain, rounds[last].probe).Throws? then result == Failed && creates == last && accounts == 0
      else
        && creates == last + 1
        && accounts == (if rounds[last].answer.Created? then 1 else 0)
        && result == match rounds[last].answer
                     case Created(stored) => (if stored then Identity(Search(slug, domain, rounds[last].probe).value)
                       else Failed)
                     case EmailTaken => (if lenient then NoIdentity else Failed)
                     case _ => Failed
  {
    creates, accounts := 0, 0;
    if lenient && slug == "" {
      return NoIdentity, creates, accounts;
    }
    for n := 0 to MAX_CREATE_ATTEMPTS
      invariant creates == n && accounts == 0
      invariant Decisive(slug, domain, rounds, 0) == Decisive(slug, domain, rounds, n)
    {
      var found, _ := GenerateUniqueHandle(slug, domain, rounds[n].probe);
      if found.Throws? {
        return Failed, creates, accounts;
      }
      creates := creates + 1;
      match rounds[n].answer {
        case Created(stored) =>
          accounts := accounts + 1;
          return if stored then Identity(found.value) else Failed, creates, accounts;
        case HandleTaken =>
          if n == MAX_CREATE_ATTEMPTS - 1 {
            return Failed, creates, accounts;
          }
        case EmailTaken => return if lenient then NoIdentity else Failed, creates, accounts;
        case OtherError => return Failed, creates, accounts;
      }
    }
    result := Failed;
  }
}
