/** The script's session: login, and the Ask button that fetches an answer and
    types it out, guarded by the `processing` flag. */
module Chat {
  import opened Text
  import opened Typing
  import opened Prompt
  import opened Response

  /** The configured login, read once at startup. */
  datatype Credentials = Credentials(username: string, password: string)

  /** Exact, case-sensitive comparison of both fields with the configured
      values; nothing is trimmed or folded. */
  function Authenticate(creds: Credentials, username: string, password: string): bool {
    username == creds.username && password == creds.password
  }

  /** The steps of an ask, in the order the script takes them. */
  datatype Effect =
    | Flag(on: bool)          // `processing` is set to `on`
    | Request(question: string)  // the question goes out to the provider
    | Rendered(text: string)  // the reply has been typed out in full

  /** What the user sees after pressing Ask. */
  datatype AskResult =
    | Disabled                   // the button was disabled: nothing happens
    | Shown(frames: seq<string>) // the typing effect's frames
    | Crashed(fault: string)     // an uncaught exception ended the run

  /** A finished ask: flag up, request, rendering, flag down. */
  predicate IsRound(b: seq<Effect>) {
    |b| == 4 && b[0] == Flag(true) && b[1].Request? && b[2].Rendered? && b[3] == Flag(false)
  }

  /** An ask whose request has gone out: flag up, request. */
  predicate IsStart(b: seq<Effect>) {
    |b| == 2 && b[0] == Flag(true) && b[1].Request?
  }

  /** A log made only of finished asks. */
  predicate Settled(log: seq<Effect>)
    decreases |log|
  {
    log == [] || (|log| >= 4 && IsRound(log[|log| - 4..]) && Settled(log[..|log| - 4]))
  }

  /** Finished asks, possibly followed by one whose request never returned. */
  predicate WellFormed(log: seq<Effect>) {
    Settled(log)
    || (|log| >= 2 && IsStart(log[|log| - 2..]) && Settled(log[..|log| - 2]))
  }

  function Delta(e: Effect): int {
    match e
    case Request(_) => 1
    case Flag(on) => if on then 0 else -1
    case Rendered(_) => 0
  }

  /** Requests sent minus requests whose rendering has been closed by
      clearing the flag. */
  function Outstanding(log: seq<Effect>): int
    decreases |log|
  {
    if log == [] then 0 else Outstanding(log[..|log| - 1]) + Delta(log[|log| - 1])
  }

  lemma {:induction false} OutstandingAppend(a: seq<Effect>, b: seq<Effect>)
    ensures Outstanding(a + b) == Outstanding(a) + Outstanding(b)
    decreases |b|
  {
    if b != [] {
      var init := b[..|b| - 1];
      assert (a + b)[..|a + b| - 1] == a + init;
      OutstandingAppend(a, init);
    } else {
      assert a + b == a;
    }
  }

  lemma OutstandingSnoc(s: seq<Effect>, i: nat)
    requires i < |s|
    ensures Outstanding(s[..i + 1]) == Outstanding(s[..i]) + Delta(s[i])
  {
    assert s[..i + 1][..i] == s[..i];
  }

  /** Within one block at most one request is out, and a finished block
      leaves none out. */
  lemma BlockOutstanding(b: seq<Effect>, j: nat)
    requires IsRound(b) || IsStart(b)
    requires j <= |b|
    ensures 0 <= Outstanding(b[..j]) <= 1
    ensures Outstanding(b) == if IsRound(b) then 0 else 1
  {
    assert b[..0] == [];
    OutstandingSnoc(b, 0);
    OutstandingSnoc(b, 1);
    if IsRound(b) {
      OutstandingSnoc(b, 2);
      OutstandingSnoc(b, 3);
    }
    assert b[..|b|] == b;
  }

  /** The prefixes of a log that ends in one block after a settled part. */
  lemma BlockPrefixes(log: seq<Effect>, p: seq<Effect>, k: nat)
    requires |p| <= k <= |log| && log[..|p|] == p && Outstanding(p) == 0
    requires IsRound(log[|p|..]) || IsStart(log[|p|..])
    ensures 0 <= Outstanding(log[..k]) <= 1
    ensures Outstanding(log) == if IsRound(log[|p|..]) then 0 else 1
  {
    var b := log[|p|..];
    assert log[..k] == p + b[..k - |p|];
    assert log == p + b;
    OutstandingAppend(p, b[..k - |p|]);
    OutstandingAppend(p, b);
    BlockOutstanding(b, k - |p|);
  }

  /** A non-empty well-formed log ends in one block after a settled part;
      the block is a finished ask exactly when the whole log is settled. */
  lemma LastBlock(log: seq<Effect>) returns (p: seq<Effect>)
    requires WellFormed(log) && log != []
    ensures |p| < |log| && p == log[..|p|] && Settled(p)
    ensures IsRound(log[|p|..]) || IsStart(log[|p|..])
    ensures IsRound(log[|p|..]) <==> Settled(log)
  {
    if Settled(log) {
      p := log[..|log| - 4];
    } else {
      p := log[..|log| - 2];
    }
  }

  /** At most one question is ever in flight: over every prefix of a
      well-formed log, the requests not yet closed number zero or one, and
      exactly one is open when the log ends inside an ask. */
  lemma {:induction false} SingleFlight(log: seq<Effect>)
    requires WellFormed(log)
    ensures forall k :: 0 <= k <= |log| ==> 0 <= Outstanding(log[..k]) <= 1
    ensures Outstanding(log) == if Settled(log) then 0 else 1
    decreases |log|
  {
    if log == [] {
      assert forall k :: 0 <= k <= |log| ==> log[..k] == [];
    } else {
      var p := LastBlock(log);
      SingleFlight(p);
      forall k | 0 <= k <= |log| ensures 0 <= Outstanding(log[..k]) <= 1 {
        if k <= |p| {
          assert log[..k] == p[..k];
        } else {
          BlockPrefixes(log, p, k);
        }
      }
      BlockPrefixes(log, p, |log|);
    }
  }

  /** Starting an ask on a settled log leaves one ask unfinished. */
  lemma StartAsk(log: seq<Effect>, q: string)
    requires Settled(log)
    ensures WellFormed(log + [Flag(true), Request(q)])
    ensures !Settled(log + [Flag(true), Request(q)])
  {
    var l := log + [Flag(true), Request(q)];
    assert l[..|l| - 2] == log;
    assert l[|l| - 2..] == [Flag(true), Request(q)];
  }

  /** Finishing that ask, step by step, settles the log again. */
  lemma FinishAsk(log: seq<Effect>, q: string, a: string)
    requires Settled(log)
    ensures var l := log + [Flag(true), Request(q)] + [Rendered(a)] + [Flag(false)];
      l == log + [Flag(true), Request(q), Rendered(a), Flag(false)] && Settled(l)
  {
    var l := log + [Flag(true), Request(q)] + [Rendered(a)] + [Flag(false)];
    assert l == log + [Flag(true), Request(q), Rendered(a), Flag(false)];
    assert l[..|l| - 4] == log;
    assert l[|l| - 4..] == [Flag(true), Request(q), Rendered(a), Flag(false)];
  }

  /** The single-flight property of a session: `processing` is up exactly
      when one request is open, and no point of the log had two open. */
  lemma SessionSingleFlight(s: Session)
    requires s.Valid()
    ensures s.processing <==> Outstanding(s.log) == 1
    ensures forall k :: 0 <= k <= |s.log| ==> 0 <= Outstanding(s.log[..k]) <= 1
  {
    SingleFlight(s.log);
  }

  /** A fresh placeholder, then the typing effect into it. */
  method ShowTyped(answer: string) returns (frames: seq<string>)
    ensures frames == Frames(answer)
  {
    var placeholder := new Placeholder();
    DisplayTypingEffect(answer, placeholder);
    frames := placeholder.frames;
  }

  /** One user's session: its two flags, and a ghost log of the ask steps. */
  class Session {
    const creds: Credentials
    const countries: seq<string>
    var authenticated: bool
    var processing: bool
    ghost var log: seq<Effect>

    /** `processing` is up exactly while an ask is unfinished, asks happen
        only after login, and the log is finished asks plus at most one
        unfinished one. */
    ghost predicate Valid()
      reads this
    {
      ListGuard(countries) && WellFormed(log) && processing == !Settled(log)
      && (log != [] ==> authenticated)
    }

    /** A new session starts logged out and idle. */
    constructor (creds: Credentials, countries: seq<string>)
      requires ListGuard(countries)
      ensures Valid()
      ensures this.creds == creds && this.countries == countries
      ensures !authenticated && !processing && log == []
    {
      this.creds := creds;
      this.countries := countries;
      authenticated := false;
      processing := false;
      log := [];
    }

    /** Submitting the login form: success sets `authenticated`; nothing
        ever clears it. */
    method SubmitLogin(username: string, password: string) returns (ok: bool)
      requires Valid()
      modifies this`authenticated
      ensures Valid()
      ensures ok <==> username == creds.username && password == creds.password
      ensures authenticated == (old(authenticated) || ok)
      ensures old(authenticated) ==> authenticated
    {
      ok := Authenticate(creds, username, password);
      if ok {
        authenticated := true;
      }
    }

    /** Pressing Ask with the two picked countries, the provider answering
        with `outcome`: a disabled button does nothing, an enabled one runs
        the ask. */
    method PressAsk(residence: string, destination: string, outcome: Outcome)
      returns (result: AskResult)
      requires Valid() && authenticated
      requires residence in countries && destination in countries
      modifies this`processing, this`log
      ensures Valid()
      ensures old(processing) ==> result == Disabled && processing && log == old(log)
      ensures !old(processing) ==>
        var q := Question(residence, destination);
        match GetAiResponse(outcome)
        case Raised(fault) =>
          result == Crashed(fault) && processing && log == old(log) + [Flag(true), Request(q)]
        case Returned(answer) =>
          result == Shown(Frames(answer)) && !processing
          && log == old(log) + [Flag(true), Request(q), Rendered(answer), Flag(false)]
    {
      if processing {
        return Disabled;
      }
      result := Ask(residence, destination, outcome);
    }

    /** The ask itself: the flag goes up before the request and comes down
        only after the reply, error messages included, has been typed out;
        an uncaught fault leaves it up. */
    method Ask(residence: string, destination: string, outcome: Outcome)
      returns (result: AskResult)
      requires Valid() && authenticated && !processing
      modifies this`processing, this`log
      ensures Valid() && result != Disabled
      ensures var q := Question(residence, destination);
        match GetAiResponse(outcome)
        case Raised(fault) =>
          result == Crashed(fault) && processing && log == old(log) + [Flag(true), Request(q)]
        case Returned(answer) =>
          result == Shown(Frames(answer)) && !processing
          && log == old(log) + [Flag(true), Request(q), Rendered(answer), Flag(false)]
    {
      var question := Question(residence, destination);
      StartAsk(log, question);
      processing, log := true, log + [Flag(true), Request(question)];
      var reply := GetAiResponse(outcome);
      match reply {
        case Raised(fault) =>
          result := Crashed(fault);
        case Returned(answer) =>
          var frames := ShowTyped(answer);
          log := log + [Rendered(answer)];
          FinishAsk(old(log), question, answer);
          processing, log := false, log + [Flag(false)];
          result := Shown(frames);
      }
    }
  }

  /** Typing out a stripped answer shows the same frames as typing the raw
      content: the frames are the provider's words, cumulatively. */
  lemma AnswerFrames(content: string)
    ensures GetAiResponse(Answer(content)).Returned?
    ensures Frames(GetAiResponse(Answer(content)).text) == Cumulative(Split(content))
  {
    SplitStrip(content);
  }

  /** The words of the rate-limit message. */
  const RateLimitWords: seq<string> :=
    ["Rate", "limit", "exceeded.", "Please", "try", "again", "later."]

  lemma RateLimitWordsAreWords()
    ensures AllWords(RateLimitWords)
  {
    var ws := RateLimitWords;
    assert IsWord(ws[0]) && IsWord(ws[1]) && IsWord(ws[2]) && IsWord(ws[3]);
    assert IsWord(ws[4]) && IsWord(ws[5]) && IsWord(ws[6]);
  }

  lemma RateLimitJoin()
    ensures Join(RateLimitWords) == "Rate" + " " + "limit" + " " + "exceeded." + " " + "Please"
      + " " + "try" + " " + "again" + " " + "later."
  {
    var w1 := ["Rate"];
    var w2 := w1 + ["limit"];
    var w3 := w2 + ["exceeded."];
    var w4 := w3 + ["Please"];
    var w5 := w4 + ["try"];
    var w6 := w5 + ["again"];
    var w7 := w6 + ["later."];
    assert w7 == RateLimitWords;
    JoinSnoc(w1, "limit");
    JoinSnoc(w2, "exceeded.");
    JoinSnoc(w3, "Please");
    JoinSnoc(w4, "try");
    JoinSnoc(w5, "again");
    JoinSnoc(w6, "later.");
  }

  lemma RateLimitSpelled()
    ensures "Rate" + " " + "limit" + " " + "exceeded." + " " + "Please"
      + " " + "try" + " " + "again" + " " + "later." == RateLimitMessage
  {
    assert "Rate" + " " + "limit" + " " + "exceeded." == "Rate limit exceeded." by { }
    assert "Rate limit exceeded." + " " + "Please" + " " + "try"
      == "Rate limit exceeded. Please try" by { }
    assert "Rate limit exceeded. Please try" + " " + "again" + " " + "later."
      == RateLimitMessage by { }
  }

  /** The rate-limit message is typed out in seven frames, the last of which
      is the message itself. */
  lemma RateLimitFrames()
    ensures |Frames(RateLimitMessage)| == 7
    ensures Frames(RateLimitMessage)[6] == RateLimitMessage
  {
    var ws := RateLimitWords;
    RateLimitWordsAreWords();
    RateLimitJoin();
    RateLimitSpelled();
    FramesOfJoin(ws);
    CumulativeAt(ws, 6);
    assert ws[..7] == ws;
  }

  /** The two words of the invalid-request prefix. */
  const InvalidRequestWords: seq<string> := ["Invalid", "request:"]

  lemma InvalidRequestLead()
    ensures AllWords(InvalidRequestWords)
    ensures Join(InvalidRequestWords) == "Invalid request:"
    ensures InvalidRequestPrefix == Join(InvalidRequestWords) + [' ']
  {
    var ws := InvalidRequestWords;
    assert IsWord(ws[0]) && IsWord(ws[1]);
    JoinSnoc(ws[..1], ws[1]);
    assert ws[..1] + [ws[1]] == ws;
    assert "Invalid" + " " + "request:" == "Invalid request:" by { }
    assert "Invalid request:" + [' '] == InvalidRequestPrefix by { }
  }

  /** The prefix contributes its two words ahead of the detail's words. */
  lemma InvalidRequestSplit(detail: string)
    ensures Split(InvalidRequestPrefix + detail) == InvalidRequestWords + Split(detail)
  {
    var j := Join(InvalidRequestWords);
    InvalidRequestLead();
    SplitJoin(InvalidRequestWords);
    assert InvalidRequestPrefix + detail == j + ([' '] + detail);
    SplitAround(j, ' ', detail);
  }

  /** An invalid-request message is typed out as "Invalid", then
      "Invalid request:", then one more frame per word of the detail. */
  lemma InvalidRequestFrames(detail: string)
    ensures |Frames(InvalidRequestPrefix + detail)| == 2 + |Split(detail)|
    ensures Frames(InvalidRequestPrefix + detail)[1] == "Invalid request:"
  {
    InvalidRequestSplit(detail);
    InvalidRequestLead();
    var ws := Split(InvalidRequestPrefix + detail);
    CumulativeAt(ws, 1);
    assert ws[..2] == InvalidRequestWords;
  }

  /** A wrong password, and a username differing only in case, leave the
      session logged out; the right pair logs it in. */
  method LoginExample() returns (wrongPassword: bool, wrongCase: bool, right: bool, loggedIn: bool)
    ensures !wrongPassword && !wrongCase && right && loggedIn
  {
    var s := new Session(Credentials("alice", "secret"), ["Afghanistan", "Albania", "Algeria"]);
    wrongPassword := s.SubmitLogin("alice", "wrong");
    assert !s.authenticated;
    wrongCase := s.SubmitLogin("Alice", "secret");
    assert !s.authenticated;
    right := s.SubmitLogin("alice", "secret");
    loggedIn := s.authenticated;
  }

  /** A rate limit is typed out as its message in seven frames, and the
      button is released. */
  method RateLimitAskExample() returns (result: AskResult, busy: bool)
    ensures result.Shown? && |result.frames| == 7 && result.frames[6] == RateLimitMessage
    ensures !busy
  {
    var s := new Session(Credentials("alice", "secret"), ["Afghanistan", "Albania", "Algeria"]);
    var ok := s.SubmitLogin("alice", "secret");
    result := s.PressAsk("Afghanistan", "Albania", RateLimited);
    assert result == Shown(Frames(RateLimitMessage));
    RateLimitFrames();
    busy := s.processing;
  }

  /** An unclassified fault escapes and leaves the flag up, so the next press
      finds the button disabled and does nothing. */
  method FaultAskExample() returns (first: AskResult, second: AskResult, busy: bool)
    ensures first == Crashed("Timeout") && second == Disabled && busy
  {
    var s := new Session(Credentials("alice", "secret"), ["Afghanistan", "Albania", "Algeria"]);
    var ok := s.SubmitLogin("alice", "secret");
    first := s.PressAsk("Albania", "Algeria", OtherFault("Timeout"));
    second := s.PressAsk("Albania", "Algeria", Answer("Yes."));
    busy := s.processing;
  }
}
