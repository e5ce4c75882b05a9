/**
  The start-up of the signing application (Firmador::OnInit) and the PIN
  callback it installs. OnInit initialises PKCS #11, adds the token
  provider, lists the connected tokens, imports each token's certificate
  objects, keeps the certificates whose key usage allows non-repudiation,
  offers their urls in a choice dialog, initialises a private key and
  finally releases every imported object.

  Every answer of gnutls and of the dialogs is part of an environment value,
  and a run is the outcome together with the calls made, in order. A call to
  exit() ends the run with that status.
*/
module Firmador {
  import opened Wrappers
  import Pin

  /** GNUTLS_E_SUCCESS: statuses below it are errors. */
  const Success := 0
  /** GNUTLS_E_REQUESTED_DATA_NOT_AVAILABLE: the normal end of the token list. */
  const NotAvailable := -56
  /** GNUTLS_KEY_NON_REPUDIATION in a certificate's key-usage word. */
  const NonRepudiation: bv32 := 64

  /** What gnutls_pkcs11_token_get_url answers for one index: a status and, on success, the token url. */
  datatype TokenReply = TokenReply(status: int, url: string)

  /** A certificate object of a token: the url it is exported as and the key usage of its certificate. */
  datatype CertObject = CertObject(url: string, keyUsage: bv32)

  /**
    One request gnutls makes of the installed PIN callback while an import
    logs in to its token: the flag bits, the token label, and what the user
    does with the dialog.
  */
  datatype PinRequest = PinRequest(flags: bv32, tokenLabel: string, entry: Pin.Entry)

  /**
    The answers the run receives. `tokenReplies[i]` answers the request for
    token `i`, and every index past the end is answered "not available".
    `imports[i]` is what the i-th import writes to `obj_list` and
    `obj_list_size`: an object list, or None when it fails without writing
    them (past the end, an empty list). `logins[i]` are the PIN requests
    gnutls makes during the i-th import, in order (none past the end).
    `selection` is None when the choice dialog is cancelled.
  */
  datatype Env = Env(
    initStatus: int,
    providerStatus: int,
    tokenReplies: seq<TokenReply>,
    imports: seq<Option<seq<CertObject>>>,
    logins: seq<seq<PinRequest>>,
    selection: Option<nat>,
    privkeyStatus: int)

  /** The calls OnInit makes to the token library and to the user, as they appear in a run. */
  datatype Call =
    | PkcsInit
    | AddProvider
    | TokenUrl(index: nat)
    | ImportObjects(url: string)
    | PinPrompt(request: PinRequest)
    | ChooseCertificate(choices: seq<string>)
    | PrivkeyInit
    | DeinitObject(token: nat, position: nat)
    | PkcsDeinit

  /** exit(code), or a return from OnInit. */
  datatype Outcome = Exited(code: int) | Returned(value: bool)

  datatype Run = Run(outcome: Outcome, calls: seq<Call>)

  function ReplyAt(replies: seq<TokenReply>, i: nat): TokenReply {
    if i < |replies| then replies[i] else TokenReply(NotAvailable, "")
  }

  /** A reply that adds a token and lets the enumeration go on. */
  predicate Found(r: TokenReply) {
    r.status != NotAvailable && r.status >= Success
  }

  /**
    The token list: the urls collected, how many indices were requested, and
    the status the enumeration aborted with, if it did.
  */
  datatype Enumeration = Enumeration(urls: seq<string>, queried: nat, failure: Option<int>)

  /**
    The enumeration loop from index `i` on. The indices `i`, `i + 1`, ... are
    requested in order, every reply before the last one requested adds its
    url in index order, and the last one ends the loop: normally when it is
    "not available", with its status as the failure otherwise.
  */
  function EnumerateFrom(replies: seq<TokenReply>, i: nat): (e: Enumeration)
    decreases |replies| - i
    ensures e.queried > i
    ensures forall k :: i <= k < e.queried - 1 ==> Found(ReplyAt(replies, k))
    ensures |e.urls| == e.queried - 1 - i
    ensures forall k :: 0 <= k < |e.urls| ==> e.urls[k] == ReplyAt(replies, i + k).url
    ensures !Found(ReplyAt(replies, e.queried - 1))
    ensures e.failure.None? <==> ReplyAt(replies, e.queried - 1).status == NotAvailable
    ensures e.failure.Some? ==> e.failure.value == ReplyAt(replies, e.queried - 1).status
  {
    var r := ReplyAt(replies, i);
    if r.status == NotAvailable then Enumeration([], i + 1, None)
    else if r.status < Success then Enumeration([], i + 1, Some(r.status))
    else
      var rest := EnumerateFrom(replies, i + 1);
      assert forall k :: 1 <= k < |rest.urls| + 1 ==> ([r.url] + rest.urls)[k] == rest.urls[k - 1];
      rest.(urls := [r.url] + rest.urls)
  }

  function Enumerate(replies: seq<TokenReply>): Enumeration {
    EnumerateFrom(replies, 0)
  }

  /** What the i-th import writes, if anything. */
  function ImportAt(env: Env, i: nat): Option<seq<CertObject>> {
    if i < |env.imports| then env.imports[i] else Some([])
  }

  /**
    The list `obj_list` and `obj_list_size` describe after the i-th import:
    the one it wrote, or, when it wrote nothing, the one left by the import
    before it (an empty one before the first). The import status is never
    checked, so nothing else happens on a failure.
  */
  function ListAfter(env: Env, i: nat): seq<CertObject> {
    match ImportAt(env, i)
    case Some(objs) => objs
    case None => if i == 0 then [] else ListAfter(env, i - 1)
  }

  /** The object list recorded for each token, one per url, in token order. */
  function Imported(env: Env, urls: seq<string>): (lists: seq<seq<CertObject>>)
    ensures |lists| == |urls|
    ensures forall t :: 0 <= t < |urls| && ImportAt(env, t).Some? ==> lists[t] == ImportAt(env, t).value
  {
    seq(|urls|, i requires 0 <= i < |urls| => ListAfter(env, i))
  }

  /** The object lists a run records: one per token the enumeration listed. */
  function Lists(env: Env): seq<seq<CertObject>> {
    Imported(env, Enumerate(env.tokenReplies).urls)
  }

  /**
    A failed import records the previous token's list once more: the same
    objects are then offered twice and released twice.
  */
  lemma FailedImportRepeatsList(env: Env, urls: seq<string>, t: nat)
    requires 0 < t < |urls| && ImportAt(env, t).None?
    ensures Imported(env, urls)[t] == Imported(env, urls)[t - 1]
  {
  }

  function TokenCalls(n: nat): (calls: seq<Call>)
    ensures |calls| == n
    ensures forall k :: 0 <= k < n ==> calls[k] == TokenUrl(k)
    ensures forall c :: c in calls ==> c.TokenUrl? && c.index < n
  {
    if n == 0 then [] else TokenCalls(n - 1) + [TokenUrl(n - 1)]
  }

  /** The installed callback ends the process on this request: the dialog was cancelled or the PIN is blank. */
  predicate Refuses(r: PinRequest) {
    !Pin.Accepted(r.entry)
  }

  /**
    The installed callback on a request, whatever buffer gnutls passes: it
    shows the request's dialog, and it ends the process with status 1 exactly
    when the request is refused.
  */
  lemma CallbackOnRequest(r: PinRequest, pin: seq<byte>)
    requires |pin| >= 1
    ensures StaticPinCallback(r.flags, r.tokenLabel, r.entry, pin).prompt == Pin.Prompt(r.flags, r.tokenLabel)
    ensures StaticPinCallback(r.flags, r.tokenLabel, r.entry, pin).Exit? <==> Refuses(r)
    ensures Refuses(r) ==> StaticPinCallback(r.flags, r.tokenLabel, r.entry, pin).code == 1
  {
  }

  /** The dialogs one import's login shows, and whether one of them ended the process. */
  datatype Login = Login(prompts: seq<Call>, refused: bool)

  /**
    The PIN requests of one import, answered in order by the installed
    callback: each shows its dialog, and the first refused one ends the
    process, so no later request is made.
  */
  function LoginFrom(reqs: seq<PinRequest>): (l: Login)
    ensures |l.prompts| <= |reqs|
    ensures l.refused ==> 0 < |l.prompts|
    ensures !l.refused ==> |l.prompts| == |reqs|
    ensures forall c :: c in l.prompts ==> c.PinPrompt?
    ensures forall k :: 0 <= k < |l.prompts| ==> l.prompts[k] == PinPrompt(reqs[k])
    ensures forall k :: 0 <= k < |l.prompts| ==> (Refuses(reqs[k]) <==> l.refused && k == |l.prompts| - 1)
  {
    if |reqs| == 0 then Login([], false)
    else if Refuses(reqs[0]) then Login([PinPrompt(reqs[0])], true)
    else
      var rest := LoginFrom(reqs[1..]);
      var prompts := [PinPrompt(reqs[0])] + rest.prompts;
      assert forall k :: 1 <= k < |prompts| ==> prompts[k] == rest.prompts[k - 1] && reqs[k] == reqs[1..][k - 1];
      Login(prompts, rest.refused)
  }

  /** A login is refused exactly when one of its requests is. */
  lemma LoginRefusedExactly(reqs: seq<PinRequest>)
    ensures LoginFrom(reqs).refused <==> exists k :: 0 <= k < |reqs| && Refuses(reqs[k])
  {
    var l := LoginFrom(reqs);
    if l.refused {
      assert Refuses(reqs[|l.prompts| - 1]);
    }
  }

  function LoginsAt(env: Env, i: nat): seq<PinRequest> {
    if i < |env.logins| then env.logins[i] else []
  }

  /** The login of the i-th import ends the process. */
  predicate RefusedAt(env: Env, i: nat) {
    LoginFrom(LoginsAt(env, i)).refused
  }

  /** The urls a sequence of calls imports, in order. */
  function ImportsIn(calls: seq<Call>): (urls: seq<string>)
    ensures |urls| <= |calls|
  {
    if |calls| == 0 then []
    else ImportsIn(calls[..|calls| - 1]) + (if calls[|calls| - 1].ImportObjects? then [calls[|calls| - 1].url] else [])
  }

  lemma {:induction false} ImportsInAppend(a: seq<Call>, b: seq<Call>)
    ensures ImportsIn(a + b) == ImportsIn(a) + ImportsIn(b)
  {
    if |b| == 0 {
      assert a + b == a;
    } else {
      var b' := b[..|b| - 1];
      assert (a + b)[..|a + b| - 1] == a + b';
      assert (a + b)[|a + b| - 1] == b[|b| - 1];
      ImportsInAppend(a, b');
    }
  }

  /** Calls that import nothing. */
  lemma {:induction false} ImportsInNone(calls: seq<Call>)
    requires forall c :: c in calls ==> !c.ImportObjects?
    ensures ImportsIn(calls) == []
  {
    if |calls| > 0 {
      assert calls[|calls| - 1] in calls;
      ImportsInNone(calls[..|calls| - 1]);
    }
  }

  /** One import followed by the dialogs of its login imports just that url. */
  lemma ImportsInStep(url: string, prompts: seq<Call>)
    requires forall c :: c in prompts ==> c.PinPrompt?
    ensures ImportsIn([ImportObjects(url)] + prompts) == [url]
  {
    ImportsInAppend([ImportObjects(url)], prompts);
    ImportsInNone(prompts);
    assert [ImportObjects(url)][..0] == [];
  }

  /** A slice is its first element followed by the rest. */
  lemma SliceFront<T>(s: seq<T>, i: nat, j: nat)
    requires i < j <= |s|
    ensures s[i..j] == [s[i]] + s[i + 1..j]
  {
  }

  /** The import loop's progress: the calls made, how many imports ran, and whether a login ended the process. */
  datatype ImportPhase = ImportPhase(calls: seq<Call>, done: nat, refused: bool)

  /**
    The import loop from token `i` on. Each import is followed by the dialogs
    of its login; the loop imports the urls in order, once each, and only a
    refused login stops it before the last url.
  */
  function ImportFrom(env: Env, urls: seq<string>, i: nat): (r: ImportPhase)
    requires i <= |urls|
    decreases |urls| - i
    ensures i <= r.done <= |urls|
    ensures !r.refused ==> r.done == |urls|
    ensures forall c :: c in r.calls ==> c.ImportObjects? || c.PinPrompt?
    ensures ImportsIn(r.calls) == urls[i..r.done]
  {
    if i == |urls| then ImportPhase([], i, false)
    else
      var login := LoginFrom(LoginsAt(env, i));
      var step := [ImportObjects(urls[i])] + login.prompts;
      ImportsInStep(urls[i], login.prompts);
      if login.refused then
        SliceFront(urls, i, i + 1);
        ImportPhase(step, i + 1, true)
      else
        var rest := ImportFrom(env, urls, i + 1);
        ImportsInAppend(step, rest.calls);
        SliceFront(urls, i, rest.done);
        ImportPhase(step + rest.calls, rest.done, rest.refused)
  }

  /** The calls of one turn of the import loop: the import of the k-th url, then the dialogs of its login. */
  function ImportStep(env: Env, urls: seq<string>, k: nat): seq<Call>
    requires k < |urls|
  {
    [ImportObjects(urls[k])] + LoginFrom(LoginsAt(env, k)).prompts
  }

  /** The turns `i` to `j - 1` of the import loop, back to back. */
  function ImportSteps(env: Env, urls: seq<string>, i: nat, j: nat): seq<Call>
    requires i <= j <= |urls|
    decreases j - i
  {
    if i == j then [] else ImportStep(env, urls, i) + ImportSteps(env, urls, i + 1, j)
  }

  /**
    The calls of the import loop are its turns from `i` up to where it
    stopped, in order: each import is directly followed by its login's
    dialogs, and nothing else is called.
  */
  lemma {:induction false} ImportFromCalls(env: Env, urls: seq<string>, i: nat)
    requires i <= |urls|
    decreases |urls| - i
    ensures ImportFrom(env, urls, i).calls == ImportSteps(env, urls, i, ImportFrom(env, urls, i).done)
  {
    if i < |urls| {
      var r := ImportFrom(env, urls, i);
      ImportFromStep(env, urls, i);
      if RefusedAt(env, i) {
        assert ImportSteps(env, urls, i + 1, i + 1) == [];
        assert r.calls == ImportStep(env, urls, i) + [];
      } else {
        ImportFromCalls(env, urls, i + 1);
        var next := ImportFrom(env, urls, i + 1);
        assert r.calls == ImportStep(env, urls, i) + next.calls;
      }
    }
  }

  /** The loop stops right after the first import whose login is refused, and only there. */
  lemma {:induction false} ImportFromStops(env: Env, urls: seq<string>, i: nat)
    requires i <= |urls|
    decreases |urls| - i
    ensures var r := ImportFrom(env, urls, i);
      (r.refused ==> i < r.done) &&
      forall k :: i <= k < r.done ==> (RefusedAt(env, k) <==> r.refused && k == r.done - 1)
  {
    if i < |urls| {
      ImportFromStep(env, urls, i);
      if !RefusedAt(env, i) {
        ImportFromStops(env, urls, i + 1);
        var next := ImportFrom(env, urls, i + 1);
        StopsLater(env, i, next.done, next.refused);
      }
    }
  }

  /** An accepted login does not move the point where the loop stops. */
  lemma StopsLater(env: Env, i: nat, done: nat, refused: bool)
    requires !RefusedAt(env, i) && i + 1 <= done && (refused ==> i + 1 < done)
    requires forall k :: i + 1 <= k < done ==> (RefusedAt(env, k) <==> refused && k == done - 1)
    ensures forall k :: i <= k < done ==> (RefusedAt(env, k) <==> refused && k == done - 1)
  {
  }

  /** One turn of the import loop: a refused login stops it, otherwise it goes on with the next url. */
  lemma ImportFromStep(env: Env, urls: seq<string>, i: nat)
    requires i < |urls|
    ensures var r := ImportFrom(env, urls, i);
      if RefusedAt(env, i) then r.refused && r.done == i + 1
      else r.refused == ImportFrom(env, urls, i + 1).refused && r.done == ImportFrom(env, urls, i + 1).done
  {
  }

  /** The import loop ends the process exactly when the login of one of the urls is refused. */
  lemma ImportsRefusedExactly(env: Env, urls: seq<string>)
    ensures ImportFrom(env, urls, 0).refused <==> exists k :: 0 <= k < |urls| && RefusedAt(env, k)
  {
    var r := ImportFrom(env, urls, 0);
    ImportFromStops(env, urls, 0);
    if r.refused {
      assert RefusedAt(env, r.done - 1);
    }
  }

  /** The test on a certificate's key usage. */
  predicate IsCandidate(o: CertObject) {
    o.keyUsage & NonRepudiation != 0
  }

  /** Only the non-repudiation bit of the key usage decides. */
  lemma CandidateIgnoresOtherBits(o: CertObject, usage: bv32)
    requires usage & NonRepudiation == o.keyUsage & NonRepudiation
    ensures IsCandidate(o.(keyUsage := usage)) == IsCandidate(o)
  {
  }

  /** The inner loop over one token's objects: the candidates among them, in order. */
  function Filter(objs: seq<CertObject>): (c: seq<CertObject>)
    ensures |c| <= |objs|
  {
    if |objs| == 0 then []
    else Filter(objs[..|objs| - 1]) + (if IsCandidate(objs[|objs| - 1]) then [objs[|objs| - 1]] else [])
  }

  /** An object is kept if and only if it is a candidate. */
  lemma {:induction false} FilterKeepsCandidates(objs: seq<CertObject>)
    ensures forall o :: o in Filter(objs) <==> o in objs && IsCandidate(o)
  {
    if |objs| > 0 {
      var front, last := objs[..|objs| - 1], objs[|objs| - 1];
      FilterKeepsCandidates(front);
      assert objs == front + [last];
    }
  }

  /** Filtering commutes with concatenation, so the candidates keep their relative order. */
  lemma {:induction false} FilterAppend(a: seq<CertObject>, b: seq<CertObject>)
    ensures Filter(a + b) == Filter(a) + Filter(b)
  {
    if |b| == 0 {
      assert a + b == a;
    } else {
      var b', last := b[..|b| - 1], b[|b| - 1];
      assert (a + b)[..|a + b| - 1] == a + b';
      assert (a + b)[|a + b| - 1] == last;
      FilterAppend(a, b');
    }
  }

  /** The candidate list built by the two nested loops, token by token. */
  function Candidates(lists: seq<seq<CertObject>>): seq<CertObject> {
    if |lists| == 0 then [] else Candidates(lists[..|lists| - 1]) + Filter(lists[|lists| - 1])
  }

  /** All imported objects, token-major and object-minor. */
  function Flatten(lists: seq<seq<CertObject>>): seq<CertObject> {
    if |lists| == 0 then [] else Flatten(lists[..|lists| - 1]) + lists[|lists| - 1]
  }

  /** The candidates are exactly the non-repudiation objects of all tokens, in token-major order. */
  lemma {:induction false} CandidatesAreFilteredObjects(lists: seq<seq<CertObject>>)
    ensures Candidates(lists) == Filter(Flatten(lists))
    ensures |Candidates(lists)| <= |Flatten(lists)|
  {
    if |lists| > 0 {
      var front := lists[..|lists| - 1];
      CandidatesAreFilteredObjects(front);
      FilterAppend(Flatten(front), lists[|lists| - 1]);
    }
  }

  /** The choice list: one entry per candidate, its object url, in candidate order. */
  function Choices(cands: seq<CertObject>): (cs: seq<string>)
    ensures |cs| == |cands|
    ensures forall i :: 0 <= i < |cands| ==> cs[i] == cands[i].url
  {
    if |cands| == 0 then [] else Choices(cands[..|cands| - 1]) + [cands[|cands| - 1].url]
  }

  /** The release loop: one DeinitObject per recorded object, token by token. */
  function Releases(lists: seq<seq<CertObject>>): seq<Call> {
    if |lists| == 0 then []
    else
      var t := |lists| - 1;
      Releases(lists[..t]) + seq(|lists[t]|, p requires 0 <= p < |lists[t]| => DeinitObject(t, p))
  }

  /** Each recorded (token, position) pair is released, nothing else is, and no pair twice. */
  lemma {:induction false} ReleasesExactly(lists: seq<seq<CertObject>>)
    ensures forall c :: c in Releases(lists) ==> c.DeinitObject? && c.token < |lists| && c.position < |lists[c.token]|
    ensures forall t: nat, p: nat :: t < |lists| && p < |lists[t]| ==> DeinitObject(t, p) in Releases(lists)
    ensures forall a, b :: 0 <= a < b < |Releases(lists)| ==> Releases(lists)[a] != Releases(lists)[b]
  {
    if |lists| > 0 {
      var t := |lists| - 1;
      var front := lists[..t];
      ReleasesExactly(front);
      var rel := Releases(front);
      var tail := seq(|lists[t]|, p requires 0 <= p < |lists[t]| => DeinitObject(t, p));
      var r := Releases(lists);
      assert r == rel + tail;
      assert forall c :: c in rel ==> c.DeinitObject? && c.token < t && c.position < |lists[c.token]|;
      forall u: nat, p: nat | u < |lists| && p < |lists[u]|
        ensures DeinitObject(u, p) in r
      {
        if u == t {
          assert tail[p] == DeinitObject(u, p);
        } else {
          assert DeinitObject(u, p) in rel;
        }
      }
      forall a, b | 0 <= a < b < |r|
        ensures r[a] != r[b]
      {
        if b >= |rel| && a < |rel| {
          assert r[a] in rel;
        }
      }
    }
  }

  /** In a sequence without repetitions every element occurs once. */
  lemma {:induction false} DistinctOccursOnce<T>(s: seq<T>, x: T)
    requires forall a, b :: 0 <= a < b < |s| ==> s[a] != s[b]
    ensures multiset(s)[x] == if x in s then 1 else 0
  {
    if |s| > 0 {
      var front := s[..|s| - 1];
      assert s == front + [s[|s| - 1]];
      DistinctOccursOnce(front, x);
      assert s[|s| - 1] !in front;
    }
  }

  /**
    Firmador::OnInit. Each failing step ends the run at once with exit(status);
    a refused PIN during an import and a cancelled choice end it with exit(1);
    otherwise every recorded object is released and OnInit returns false.
  */
  function OnInit(env: Env): (run: Run)
    ensures run.outcome.Exited? ==> run.outcome.code != 0
    ensures run.outcome.Returned? ==> !run.outcome.value
    ensures |run.calls| >= 1 && run.calls[0] == PkcsInit
  {
    if env.initStatus < Success then Run(Exited(env.initStatus), [PkcsInit])
    else if env.providerStatus < Success then Run(Exited(env.providerStatus), [PkcsInit, AddProvider])
    else
      var e := Enumerate(env.tokenReplies);
      var listed := [PkcsInit, AddProvider] + TokenCalls(e.queried);
      if e.failure.Some? then Run(Exited(e.failure.value), listed)
      else
        var later := AfterListing(env, e.urls);
        Run(later.outcome, listed + later.calls)
  }

  /**
    The part of OnInit after the token list was read: the imports with their
    logins, then, unless a login ended the process, the choice, the private
    key and the release loop. None of it requests a token.
  */
  function AfterListing(env: Env, urls: seq<string>): (run: Run)
    ensures forall c :: c in run.calls ==> !c.TokenUrl?
    ensures run.outcome.Exited? ==> run.outcome.code != 0
    ensures run.outcome.Returned? ==> !run.outcome.value
    ensures ImportFrom(env, urls, 0).refused ==> run.outcome == Exited(1)
  {
    var im := ImportFrom(env, urls, 0);
    var rest := if im.refused then Run(Exited(1), []) else Choosing(env, Imported(env, urls));
    Run(rest.outcome, im.calls + rest.calls)
  }

  /** The part of OnInit after the imports: the choice, the private key and the release loop. */
  function Choosing(env: Env, lists: seq<seq<CertObject>>): (run: Run)
    ensures forall c :: c in run.calls ==> !c.TokenUrl? && !c.ImportObjects? && !c.PinPrompt?
    ensures PrivkeyInit in run.calls <==> env.selection.Some?
    ensures run.outcome.Exited? ==> forall c :: c in run.calls ==> !c.DeinitObject?
    ensures run.outcome.Exited? ==> run.outcome.code != 0
    ensures run.outcome.Returned? ==> !run.outcome.value
  {
    var offered := [ChooseCertificate(Choices(Candidates(lists)))];
    if env.selection.None? then Run(Exited(1), offered)
    else if env.privkeyStatus < Success then Run(Exited(env.privkeyStatus), offered + [PrivkeyInit])
    else
      ReleasesExactly(lists);
      Run(Returned(false), offered + [PrivkeyInit] + Releases(lists) + [PkcsDeinit])
  }

  /** The library and the provider were set up, so the token list is read. */
  predicate SetUp(env: Env) {
    env.initStatus >= Success && env.providerStatus >= Success
  }

  /** The token list was read without error, so the objects are imported. */
  predicate Listed(env: Env) {
    SetUp(env) && Enumerate(env.tokenReplies).failure.None?
  }

  /** Besides, no import's login was refused, so the choice is offered. */
  predicate LoggedIn(env: Env) {
    Listed(env) && forall k :: 0 <= k < |Enumerate(env.tokenReplies).urls| ==> !RefusedAt(env, k)
  }

  /** The import loop of a run whose token list was read. */
  function Imports(env: Env): ImportPhase {
    ImportFrom(env, Enumerate(env.tokenReplies).urls, 0)
  }

  /** Every login is accepted exactly when the import loop runs to its end. */
  lemma LoggedInExactly(env: Env)
    requires Listed(env)
    ensures LoggedIn(env) <==> !Imports(env).refused
  {
    ImportsRefusedExactly(env, Enumerate(env.tokenReplies).urls);
  }

  /**
    The tokens are requested by index 0, 1, 2, ... right after set-up, each
    index once, and none beyond the reply that ended the enumeration.
  */
  lemma TokensRequestedInOrder(env: Env)
    requires SetUp(env)
    ensures var q, run := Enumerate(env.tokenReplies).queried, OnInit(env);
      |run.calls| >= 2 + q &&
      (forall k :: 0 <= k < q ==> run.calls[2 + k] == TokenUrl(k)) &&
      (forall k: nat :: TokenUrl(k) in run.calls <==> k < q)
  {
    var e := Enumerate(env.tokenReplies);
    var later := if e.failure.Some? then [] else AfterListing(env, e.urls).calls;
    assert OnInit(env).calls == [PkcsInit, AddProvider] + TokenCalls(e.queried) + later;
    TokensThenRest(e.queried, later);
  }

  /** Set-up, then tokens 0 to q-1 in order, then calls that request no token. */
  lemma TokensThenRest(q: nat, later: seq<Call>)
    requires forall c :: c in later ==> !c.TokenUrl?
    ensures var calls := [PkcsInit, AddProvider] + TokenCalls(q) + later;
      |calls| >= 2 + q &&
      (forall k :: 0 <= k < q ==> calls[2 + k] == TokenUrl(k)) &&
      (forall k: nat :: TokenUrl(k) in calls <==> k < q)
  {
    var tokens := TokenCalls(q);
    var calls := [PkcsInit, AddProvider] + tokens + later;
    forall k: nat
      ensures TokenUrl(k) in calls <==> k < q
    {
      if k < q {
        assert calls[2 + k] == tokens[k];
      }
      if TokenUrl(k) in calls {
        assert TokenUrl(k) !in later;
        assert TokenUrl(k) in tokens;
      }
    }
  }

  /**
    The ways a run ends: the first failing step decides the exit status, a
    refused PIN and a cancelled choice exit with 1, and only a run through
    every step returns.
  */
  lemma OnInitOutcome(env: Env)
    ensures var run, e := OnInit(env), Enumerate(env.tokenReplies);
      (env.initStatus < Success ==> run.outcome == Exited(env.initStatus)) &&
      (env.initStatus >= Success && env.providerStatus < Success ==> run.outcome == Exited(env.providerStatus)) &&
      (SetUp(env) && e.failure.Some? ==> run.outcome == Exited(e.failure.value)) &&
      (Listed(env) && !LoggedIn(env) ==> run.outcome == Exited(1)) &&
      (LoggedIn(env) && env.selection.None? ==> run.outcome == Exited(1)) &&
      (LoggedIn(env) && env.selection.Some? && env.privkeyStatus < Success ==> run.outcome == Exited(env.privkeyStatus)) &&
      (run.outcome.Returned? <==> LoggedIn(env) && env.selection.Some? && env.privkeyStatus >= Success)
  {
    if Listed(env) {
      LoggedInExactly(env);
    }
  }

  /** A private key is initialised exactly when every login was accepted and a certificate was chosen. */
  lemma CancelledChoiceStops(env: Env)
    ensures PrivkeyInit in OnInit(env).calls <==> LoggedIn(env) && env.selection.Some?
  {
    if Listed(env) {
      var q, im := Enumerate(env.tokenReplies).queried, Imports(env);
      var rest := if im.refused then Run(Exited(1), []) else Choosing(env, Lists(env));
      var before := [PkcsInit, AddProvider] + TokenCalls(q);
      ListedRun(env);
      LoggedInExactly(env);
      NoChoiceInImports(q, im.calls);
      OnlyInRest(before, im.calls, rest.calls, PrivkeyInit);
    }
  }

  /** A call that neither the set-up, the listing nor the imports make is made by the rest of the run or not at all. */
  lemma OnlyInRest<T>(before: seq<T>, imports: seq<T>, rest: seq<T>, x: T)
    requires x !in before + imports
    ensures x in before + (imports + rest) <==> x in rest
  {
    assert before + (imports + rest) == (before + imports) + rest;
  }

  /** A run whose token list was read: set-up and listing, the imports, then the rest unless a login ended the process. */
  lemma ListedRun(env: Env)
    requires Listed(env)
    ensures var im := Imports(env);
      var rest := if im.refused then Run(Exited(1), []) else Choosing(env, Lists(env));
      OnInit(env) == Run(rest.outcome, [PkcsInit, AddProvider] + TokenCalls(Enumerate(env.tokenReplies).queried) + (im.calls + rest.calls))
  {
  }

  /**
    The choice dialog offers the urls of exactly the non-repudiation objects
    of all tokens, one entry each, in token-major order.
  */
  lemma ChoicesOffered(env: Env)
    requires LoggedIn(env)
    ensures ChooseCertificate(Choices(Filter(Flatten(Lists(env))))) in OnInit(env).calls
  {
    var q, im := Enumerate(env.tokenReplies).queried, Imports(env);
    var offered := ChooseCertificate(Choices(Candidates(Lists(env))));
    LoggedInExactly(env);
    ListedRun(env);
    CandidatesAreFilteredObjects(Lists(env));
    var rest := Choosing(env, Lists(env)).calls;
    assert rest[0] == offered;
    NoChoiceInImports(q, im.calls);
    OnlyInRest([PkcsInit, AddProvider] + TokenCalls(q), im.calls, rest, offered);
  }

  /** The import loop follows the enumeration directly. */
  lemma ImportsFollowTokens(env: Env)
    requires Listed(env)
    ensures var e, run, im := Enumerate(env.tokenReplies), OnInit(env), Imports(env);
      |run.calls| >= 2 + e.queried + |im.calls| &&
      run.calls[2 + e.queried..2 + e.queried + |im.calls|] == im.calls
  {
    var q, im := Enumerate(env.tokenReplies).queried, Imports(env);
    var rest := if im.refused then Run(Exited(1), []) else Choosing(env, Lists(env));
    ListedRun(env);
    SliceMiddle([PkcsInit, AddProvider] + TokenCalls(q), im.calls, rest.calls);
  }

  /** The middle part of a concatenation, found again by its position. */
  lemma SliceMiddle<T>(a: seq<T>, b: seq<T>, c: seq<T>)
    ensures |a + (b + c)| >= |a| + |b| && (a + (b + c))[|a|..|a| + |b|] == b
  {
    assert (a + (b + c))[|a|..|a| + |b|] == b;
  }

  /** The calls after the import loop import nothing. */
  lemma RunImports(env: Env)
    requires Listed(env)
    ensures ImportsIn(OnInit(env).calls) == Enumerate(env.tokenReplies).urls[..Imports(env).done]
  {
    var e := Enumerate(env.tokenReplies);
    var im := Imports(env);
    var listed := [PkcsInit, AddProvider] + TokenCalls(e.queried);
    var rest := if im.refused then [] else Choosing(env, Lists(env)).calls;
    assert OnInit(env).calls == listed + (im.calls + rest);
    ImportsInNone(listed);
    ImportsInNone(rest);
    ImportsInAppend(im.calls, rest);
    ImportsInAppend(listed, im.calls + rest);
  }

  /** When every login is accepted, a run imports every listed token, once each, in order. */
  lemma AllTokensImported(env: Env)
    requires LoggedIn(env)
    ensures ImportsIn(OnInit(env).calls) == Enumerate(env.tokenReplies).urls
  {
    LoggedInExactly(env);
    RunImports(env);
  }

  /**
    When the login of the k-th import is the first one refused, the run
    imports tokens 0 to k in order, then ends with exit(1): the choice is
    never offered and no object is released.
  */
  lemma RefusedLoginStops(env: Env, k: nat)
    requires Listed(env) && k < |Enumerate(env.tokenReplies).urls| && RefusedAt(env, k)
    requires forall j :: 0 <= j < k ==> !RefusedAt(env, j)
    ensures OnInit(env).outcome == Exited(1)
    ensures ImportsIn(OnInit(env).calls) == Enumerate(env.tokenReplies).urls[..k + 1]
    ensures forall c :: c in OnInit(env).calls ==> !c.ChooseCertificate? && !c.DeinitObject?
  {
    var e := Enumerate(env.tokenReplies);
    var im := Imports(env);
    ImportFromStops(env, e.urls, 0);
    if im.refused {
      assert RefusedAt(env, im.done - 1);
    }
    assert k < im.done;
    assert im.refused && im.done == k + 1;
    RunImports(env);
    RefusedRun(env);
    NoChoiceInImports(e.queried, im.calls);
  }

  /** A run whose import loop was cut short by a login is the set-up, the listing and the imports. */
  lemma RefusedRun(env: Env)
    requires Listed(env) && Imports(env).refused
    ensures OnInit(env) == Run(Exited(1), [PkcsInit, AddProvider] + TokenCalls(Enumerate(env.tokenReplies).queried) + Imports(env).calls)
  {
    var none: seq<Call> := [];
    assert Imports(env).calls + none == Imports(env).calls;
  }

  /** Neither the set-up, the listing nor the imports offer a choice, initialise a key or release an object. */
  lemma NoChoiceInImports(q: nat, imports: seq<Call>)
    requires forall c :: c in imports ==> c.ImportObjects? || c.PinPrompt?
    ensures forall c :: c in [PkcsInit, AddProvider] + TokenCalls(q) + imports ==> !c.ChooseCertificate? && !c.PrivkeyInit? && !c.DeinitObject?
  {
  }

  /** The calls a returning run makes before its release loop. */
  function BeforeRelease(env: Env): seq<Call> {
    var e := Enumerate(env.tokenReplies);
    [PkcsInit, AddProvider] + TokenCalls(e.queried) +
      (Imports(env).calls + [ChooseCertificate(Choices(Candidates(Lists(env))))]) + [PrivkeyInit]
  }

  /** A returning run is its set-up, listing, imports, choice and key, then the release loop, then the library's release. */
  lemma ReturningRun(env: Env)
    requires OnInit(env).outcome.Returned?
    ensures OnInit(env).calls == BeforeRelease(env) + Releases(Lists(env)) + [PkcsDeinit]
    ensures forall c :: c in BeforeRelease(env) ==> !c.DeinitObject?
  {
    var e := Enumerate(env.tokenReplies);
    var listed := [PkcsInit, AddProvider] + TokenCalls(e.queried);
    var im := Imports(env).calls;
    var choice := ChooseCertificate(Choices(Candidates(Lists(env))));
    var release := Releases(Lists(env));
    assert OnInit(env).calls == listed + (im + ([choice] + [PrivkeyInit] + release + [PkcsDeinit]));
    Regroup(listed, im, [choice], [PrivkeyInit], release, [PkcsDeinit]);
    NoReleaseBefore(e.queried, im, choice);
  }

  lemma Regroup<T>(a: seq<T>, b: seq<T>, c: seq<T>, d: seq<T>, e: seq<T>, f: seq<T>)
    ensures a + (b + (c + d + e + f)) == a + (b + c) + d + e + f
  {
  }

  /**
    A run that returns has released every recorded (token, position) entry
    exactly once, and nothing else.
  */
  lemma ReleasesEachObjectOnce(env: Env, t: nat, p: nat)
    requires OnInit(env).outcome.Returned?
    ensures multiset(OnInit(env).calls)[DeinitObject(t, p)] ==
      if t < |Lists(env)| && p < |Lists(env)[t]| then 1 else 0
  {
    ReturningRun(env);
    ReleaseCount(Lists(env), BeforeRelease(env), OnInit(env).calls, t, p);
  }

  /**
    After a failed import, the objects of the token before it are released
    twice: once under each token, although they are the same objects.
  */
  lemma RepeatedListReleasedTwice(env: Env, t: nat, p: nat)
    requires OnInit(env).outcome.Returned?
    requires 0 < t < |Lists(env)| && ImportAt(env, t).None? && p < |Lists(env)[t - 1]|
    ensures Lists(env)[t] == Lists(env)[t - 1]
    ensures DeinitObject(t - 1, p) in OnInit(env).calls && DeinitObject(t, p) in OnInit(env).calls
  {
    var lists := Lists(env);
    FailedImportRepeatsList(env, Enumerate(env.tokenReplies).urls, t);
    assert lists[t] == lists[t - 1];
    ReturningRun(env);
    ReleasesExactly(lists);
    assert DeinitObject(t - 1, p) in Releases(lists) && DeinitObject(t, p) in Releases(lists);
  }

  /** Counting one object's releases in a run that ends with the release loop. */
  lemma ReleaseCount(lists: seq<seq<CertObject>>, before: seq<Call>, calls: seq<Call>, t: nat, p: nat)
    requires forall c :: c in before ==> !c.DeinitObject?
    requires calls == before + Releases(lists) + [PkcsDeinit]
    ensures multiset(calls)[DeinitObject(t, p)] == if t < |lists| && p < |lists[t]| then 1 else 0
  {
    ReleasesExactly(lists);
    OnceInMiddle(before, Releases(lists), [PkcsDeinit], DeinitObject(t, p));
  }

  /** Nothing before the release loop releases an object. */
  lemma NoReleaseBefore(q: nat, imports: seq<Call>, choice: Call)
    requires forall c :: c in imports ==> c.ImportObjects? || c.PinPrompt?
    requires choice.ChooseCertificate?
    ensures forall c :: c in [PkcsInit, AddProvider] + TokenCalls(q) + (imports + [choice]) + [PrivkeyInit] ==> !c.DeinitObject?
  {
  }

  /** An element kept out of the outer parts occurs in the whole as often as in a middle part without repetitions. */
  lemma OnceInMiddle<T>(before: seq<T>, mid: seq<T>, after: seq<T>, x: T)
    requires x !in before && x !in after
    requires forall a, b :: 0 <= a < b < |mid| ==> mid[a] != mid[b]
    ensures multiset(before + mid + after)[x] == if x in mid then 1 else 0
  {
    DistinctOccursOnce(mid, x);
    assert multiset(before + mid + after) == multiset(before) + multiset(mid) + multiset(after);
  }

  /** A run that ends in exit() has released nothing: the release loop only runs on the way to returning. */
  lemma ExitReleasesNothing(env: Env)
    requires OnInit(env).outcome.Exited?
    ensures forall c :: c in OnInit(env).calls ==> !c.DeinitObject?
  {
    if Listed(env) {
      var q, im := Enumerate(env.tokenReplies).queried, Imports(env);
      var rest := if im.refused then Run(Exited(1), []) else Choosing(env, Lists(env));
      var before := [PkcsInit, AddProvider] + TokenCalls(q);
      ListedRun(env);
      NoChoiceInImports(q, im.calls);
      assert before + (im.calls + rest.calls) == (before + im.calls) + rest.calls;
    }
  }

  /** How the PIN callback of firmador.cpp ends: exit(status), or a return with the buffer it leaves. */
  datatype StaticReply =
    | Exit(prompt: string, code: int)
    | Return(prompt: string, status: int, pin: seq<byte>)

  /**
    The PIN callback OnInit installs. It shows the same dialog as pin.cpp's,
    but a cancelled dialog or a blank value ends the process with status 1
    instead of returning -1; a value it accepts is stored exactly as pin.cpp
    stores it.
  */
  function StaticPinCallback(flags: bv32, tokenLabel: string, entry: Pin.Entry, pin: seq<byte>): (r: StaticReply)
    requires |pin| >= 1
    ensures r.prompt == Pin.Prompt(flags, tokenLabel)
    ensures r.Exit? <==> !Pin.Accepted(entry)
    ensures r.Exit? ==> r.code == 1
    ensures r.Return? ==> r.status == 0 && r.pin == Pin.PinCallback(flags, tokenLabel, entry, pin).pin
  {
    var prompt := Pin.Prompt(flags, tokenLabel);
    match entry
    case Cancelled => Exit(prompt, 1)
    case Confirmed(converted) =>
      if converted.None? || |converted.value| == 0 || converted.value[0] == 0 then Exit(prompt, 1)
      else Return(prompt, 0, Pin.Store(pin, converted.value))
  }
}
