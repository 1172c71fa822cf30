/** The server's `POST` handler for PDF export, as a state machine over the
    phases of the handler. The headless browser is an `Engine`: a fixed
    record of which of its calls succeed and what they return. The handler
    emits the calls it makes, in order, and ends in an `Outcome`. */
module PdfRoute {
  import opened Base
  import opened Geometry
  import Fit

  // ----- The request -----

  /** The `html` property of the posted JSON value, as JavaScript sees it. */
  datatype Field = Undefined | Null | Bool(b: bool) | Number(x: real) | NaN | Str(s: string) | Composite

  /** JavaScript truthiness: `!html` is true exactly for the falsy values. */
  predicate Truthy(f: Field) {
    match f
    case Undefined => false
    case Null => false
    case Bool(b) => b
    case Number(x) => x != 0.0
    case NaN => false
    case Str(s) => |s| > 0
    case Composite => true
  }

  /** The request body: not JSON at all, JSON `null`, a JSON object, or any
      other JSON value (which has no `html` property). */
  datatype Body = Malformed | JsonNull | JsonObject(html: Field) | JsonOther

  // ----- The browser -----

  datatype Heights = Heights(body: nat, root: nat)

  type Bytes = seq<bv8>

  /** How each browser call turns out. The two `close` calls (in the `try`
      and in the `catch`) may turn out differently. */
  datatype Engine = Engine(
    launch: Step,
    newPage: Step,
    viewport: Step,
    media: Step,
    content: Step,
    measure: Attempt<Heights>,
    render: Attempt<Bytes>,
    closeInTry: Step,
    closeInCatch: Step)

  datatype Margin = Margin(top: nat, right: nat, bottom: nat, left: nat)

  datatype PdfOptions = PdfOptions(format: string, printBackground: bool, margin: Margin, scale: real, pageRanges: string)

  /** A call the handler makes on the browser. */
  datatype Call =
    | Launch(headless: bool, args: seq<string>)
    | NewPage
    | SetViewport(width: nat, height: nat)
    | EmulateMediaType(media: string)
    | SetContent(html: Field, waitUntil: string, timeout: nat)
    | Evaluate
    | Pdf(options: PdfOptions)
    | Close

  const LaunchArgs: seq<string> := ["--no-sandbox", "--disable-setuid-sandbox"]

  /** The options of the PDF export for content of the given height. */
  function ExportOptions(height: nat): (o: PdfOptions)
    ensures o.format == "A4" && o.pageRanges == "1" && o.margin == Margin(0, 0, 0, 0)
    ensures o.printBackground
    ensures o.scale == Fit.PdfScale(height) && Fit.MinScale <= o.scale <= 1.0
  {
    PdfOptions("A4", true, Margin(0, 0, 0, 0), Fit.PdfScale(height), "1")
  }

  // ----- The response -----

  datatype Payload = PdfBytes(bytes: Bytes) | JsonError(error: string)

  datatype Response = Response(status: nat, headers: seq<(string, string)>, payload: Payload)

  /** Why the handler threw instead of returning a response. */
  datatype Rejection = BadJson | NullBody | LaunchFailed(error: string) | CloseFailed(error: string)

  datatype Outcome = Responded(response: Response) | Rejected(rejection: Rejection)

  const JsonHeaders: seq<(string, string)> := [("Content-Type", "application/json")]

  const PdfHeaders: seq<(string, string)> :=
    [("Content-Type", "application/pdf"), ("Content-Disposition", "attachment; filename=belge.pdf")]

  const NoHtml := Responded(Response(400, JsonHeaders, JsonError("No HTML")))

  function Success(bytes: Bytes): Outcome {
    Responded(Response(200, PdfHeaders, PdfBytes(bytes)))
  }

  /** The `catch` block: close the browser, then answer 500 with the error
      text, unless closing throws too. */
  function CatchOutcome(e: Engine, error: string): (o: Outcome)
    ensures o.Responded? <==> e.closeInCatch.Succeeds?
    ensures o.Responded? ==> o.response.status == 500 && o.response.payload == JsonError(error)
  {
    match e.closeInCatch
    case Succeeds => Responded(Response(500, JsonHeaders, JsonError(error)))
    case Fails(err) => Rejected(CloseFailed(err))
  }

  // ----- The handler, one phase at a time -----

  /** Where the handler is. `Trying(k, ...)` is about to make the `k`-th call
      inside the `try` (0 `newPage` to 6 `close`), holding the measured
      height and the PDF bytes once it has them. */
  datatype Phase =
    | Parse(body: Body)
    | Check(html: Field)
    | Launching(html: Field)
    | Trying(k: nat, html: Field, height: nat, bytes: Bytes)
    | Catching(error: string)
    | Finished(outcome: Outcome)

  /** How far a phase is from the end. */
  function Rank(p: Phase): nat {
    match p
    case Parse(_) => 11
    case Check(_) => 10
    case Launching(_) => 9
    case Trying(k, _, _, _) => if k <= 6 then 8 - k else 2
    case Catching(_) => 1
    case Finished(_) => 0
  }

  /** One step of the handler: the next phase and the calls made on the way. */
  function Next(e: Engine, p: Phase): (r: (Phase, seq<Call>))
    requires !p.Finished?
    ensures Rank(r.0) < Rank(p)
  {
    match p
    case Parse(body) =>
      (match body
       case Malformed => (Finished(Rejected(BadJson)), [])
       case JsonNull => (Finished(Rejected(NullBody)), [])
       case JsonObject(html) => (Check(html), [])
       case JsonOther => (Check(Undefined), []))
    case Check(html) =>
      if !Truthy(html) then (Finished(NoHtml), []) else (Launching(html), [])
    case Launching(html) =>
      var calls := [Launch(true, LaunchArgs)];
      (match e.launch
       case Fails(err) => (Finished(Rejected(LaunchFailed(err))), calls)
       case Succeeds => (Trying(0, html, 0, []), calls))
    case Trying(k, html, height, bytes) =>
      if k == 0 then StepOr(e.newPage, Trying(1, html, height, bytes), NewPage)
      else if k == 1 then StepOr(e.viewport, Trying(2, html, height, bytes), SetViewport(A4WidthPx, A4HeightPx))
      else if k == 2 then StepOr(e.media, Trying(3, html, height, bytes), EmulateMediaType("screen"))
      else if k == 3 then StepOr(e.content, Trying(4, html, height, bytes), SetContent(html, "networkidle0", 15000))
      else if k == 4 then
        (match e.measure
         case Throws(err) => (Catching(err), [Evaluate])
         case Ok(hs) => (Trying(5, html, Fit.ContentHeight(hs.body, hs.root), bytes), [Evaluate]))
      else if k == 5 then
        (match e.render
         case Throws(err) => (Catching(err), [Pdf(ExportOptions(height))])
         case Ok(pdf) => (Trying(6, html, height, pdf), [Pdf(ExportOptions(height))]))
      else
        (match e.closeInTry
         case Fails(err) => (Catching(err), [Close])
         case Succeeds => (Finished(Success(bytes)), [Close]))
    case Catching(err) =>
      (Finished(CatchOutcome(e, err)), [Close])
  }

  /** A call that either moves on to `next` or throws into the `catch`. */
  function StepOr(s: Step, next: Phase, call: Call): (Phase, seq<Call>) {
    match s
    case Succeeds => (next, [call])
    case Fails(err) => (Catching(err), [call])
  }

  /** The handler run from phase `p` to its end. */
  function Run(e: Engine, p: Phase): (r: (Outcome, seq<Call>))
    decreases Rank(p)
  {
    if p.Finished? then (p.outcome, [])
    else
      var step := Next(e, p);
      var rest := Run(e, step.0);
      (rest.0, step.1 + rest.1)
  }

  /** The whole handler for one request. */
  function Post(body: Body, e: Engine): (r: (Outcome, seq<Call>)) {
    Run(e, Parse(body))
  }

  // ----- The same, described all at once -----

  /** The `html` the handler reads from the body. */
  function PostedHtml(body: Body): Field {
    if body.JsonObject? then body.html else Undefined
  }

  /** The error each call inside the `try` throws, in order, if any. */
  function TryErrors(e: Engine): (r: seq<Option<string>>)
    ensures |r| == 7
  {
    [ErrorOf(e.newPage), ErrorOf(e.viewport), ErrorOf(e.media), ErrorOf(e.content),
     if e.measure.Throws? then Some(e.measure.error) else None,
     if e.render.Throws? then Some(e.render.error) else None,
     ErrorOf(e.closeInTry)]
  }

  function ErrorOf(s: Step): Option<string> {
    if s.Fails? then Some(s.error) else None
  }

  /** The first of `errors` at or after `k` that is an error. */
  function FirstError(errors: seq<Option<string>>, k: nat): (r: Option<nat>)
    requires k <= |errors|
    ensures r.Some? ==> k <= r.value < |errors| && errors[r.value].Some?
    ensures r.Some? ==> forall j :: k <= j < r.value ==> errors[j].None?
    ensures r.None? ==> forall j :: k <= j < |errors| ==> errors[j].None?
    decreases |errors| - k
  {
    if k == |errors| then None
    else if errors[k].Some? then Some(k)
    else FirstError(errors, k + 1)
  }

  /** The height the handler measures, when measuring succeeds. */
  function MeasuredHeight(e: Engine): nat {
    if e.measure.Ok? then Fit.ContentHeight(e.measure.value.body, e.measure.value.root) else 0
  }

  /** Every call the `try` block makes when nothing in it throws. */
  function TryCalls(html: Field, e: Engine): (r: seq<Call>)
    ensures |r| == 7 && r[6] == Close
  {
    [NewPage, SetViewport(A4WidthPx, A4HeightPx), EmulateMediaType("screen"),
     SetContent(html, "networkidle0", 15000), Evaluate, Pdf(ExportOptions(MeasuredHeight(e))), Close]
  }

  /** The run of the `try` block from its `k`-th call: every call up to and
      including the first that throws, then the `close` of the `catch`. */
  function TryReference(e: Engine, html: Field, k: nat, bytes: Bytes): (Outcome, seq<Call>)
    requires k <= 6
  {
    match FirstError(TryErrors(e), k)
    case None => (Success(if k <= 5 && e.render.Ok? then e.render.value else bytes), TryCalls(html, e)[k..])
    case Some(i) => (CatchOutcome(e, TryErrors(e)[i].value), TryCalls(html, e)[k..i + 1] + [Close])
  }

  /** The whole handler for one request, described without phases. */
  function Reference(body: Body, e: Engine): (Outcome, seq<Call>) {
    var html := PostedHtml(body);
    if body.Malformed? then (Rejected(BadJson), [])
    else if body.JsonNull? then (Rejected(NullBody), [])
    else if !Truthy(html) then (NoHtml, [])
    else if e.launch.Fails? then (Rejected(LaunchFailed(e.launch.error)), [Launch(true, LaunchArgs)])
    else
      var (o, calls) := TryReference(e, html, 0, []);
      (o, [Launch(true, LaunchArgs)] + calls)
  }

  /** The phases from the `k`-th call of the `try` block run as the
      reference says, as long as the height and bytes held are the ones the
      engine produced. */
  lemma {:induction false} TryingFollowsReference(e: Engine, html: Field, k: nat, height: nat, bytes: Bytes)
    requires k <= 6
    requires k >= 5 ==> e.measure.Ok? && height == MeasuredHeight(e)
    requires k == 6 ==> e.render.Ok? && bytes == e.render.value
    ensures Run(e, Trying(k, html, height, bytes)) == TryReference(e, html, k, bytes)
    decreases 6 - k
  {
    if TryErrors(e)[k].Some? {
      ThrowingCallFollowsReference(e, html, k, height, bytes);
    } else if k == 6 {
      ClosingFollowsReference(e, html, height, bytes);
    } else {
      var next := NextInTry(e, html, k, height, bytes);
      TryingFollowsReference(e, html, k + 1, next.height, next.bytes);
      PassingCallFollowsReference(e, html, k, height, bytes);
    }
  }

  /** A call of the `try` block that throws: the call, then the `catch`. */
  lemma ThrowingCallFollowsReference(e: Engine, html: Field, k: nat, height: nat, bytes: Bytes)
    requires k <= 6 && TryErrors(e)[k].Some?
    requires k == 5 ==> height == MeasuredHeight(e)
    ensures Run(e, Trying(k, html, height, bytes)) == TryReference(e, html, k, bytes)
  {
    var p := Trying(k, html, height, bytes);
    var errors := TryErrors(e);
    var all := TryCalls(html, e);
    var q := Next(e, p).0;
    assert Next(e, p).1 == [all[k]];
    assert FirstError(errors, k) == Some(k);
    assert q == Catching(errors[k].value);
    assert Run(e, Finished(CatchOutcome(e, errors[k].value))).1 == [];
    assert [Close] + [] == [Close];
    assert Run(e, q) == (CatchOutcome(e, errors[k].value), [Close]);
    assert all[k..k + 1] == [all[k]];
  }

  /** The `close` of the `try` block succeeding: the 200 response. */
  lemma ClosingFollowsReference(e: Engine, html: Field, height: nat, bytes: Bytes)
    requires TryErrors(e)[6].None?
    ensures Run(e, Trying(6, html, height, bytes)) == TryReference(e, html, 6, bytes)
  {
    var p := Trying(6, html, height, bytes);
    var all := TryCalls(html, e);
    assert FirstError(TryErrors(e), 6) == None;
    assert Next(e, p) == (Finished(Success(bytes)), [Close]);
    assert all[6..] == [Close] == [Close] + [];
  }

  /** A call of the `try` block that does not throw: the call, then the rest
      of the block. */
  lemma PassingCallFollowsReference(e: Engine, html: Field, k: nat, height: nat, bytes: Bytes)
    requires k < 6 && TryErrors(e)[k].None?
    requires k == 5 ==> height == MeasuredHeight(e)
    requires var next := NextInTry(e, html, k, height, bytes);
      Run(e, next) == TryReference(e, html, k + 1, next.bytes)
    ensures Run(e, Trying(k, html, height, bytes)) == TryReference(e, html, k, bytes)
  {
    var p := Trying(k, html, height, bytes);
    var all := TryCalls(html, e);
    var next := NextInTry(e, html, k, height, bytes);
    assert Next(e, p).1 == [all[k]];
    assert Run(e, p) == (Run(e, next).0, [all[k]] + Run(e, next).1);
    ReferenceStep(e, html, k, bytes, next.bytes);
  }

  /** The reference from the `k`-th call, when that call does not throw, is
      the call followed by the reference from the next one. */
  lemma ReferenceStep(e: Engine, html: Field, k: nat, bytes: Bytes, bytes': Bytes)
    requires k < 6 && TryErrors(e)[k].None?
    requires k == 5 ==> e.render.Ok? && bytes' == e.render.value
    ensures var all := TryCalls(html, e); var rest := TryReference(e, html, k + 1, bytes');
      TryReference(e, html, k, bytes) == (rest.0, [all[k]] + rest.1)
  {
    var errors := TryErrors(e);
    var all := TryCalls(html, e);
    assert FirstError(errors, k) == FirstError(errors, k + 1);
    match FirstError(errors, k + 1)
    case None =>
      assert errors[5].None?;
      assert all[k..] == [all[k]] + all[k + 1..];
    case Some(i) =>
      assert all[k..i + 1] == [all[k]] + all[k + 1..i + 1];
      assert [all[k]] + (all[k + 1..i + 1] + [Close]) == all[k..i + 1] + [Close];
  }

  /** The phase after a call of the `try` block that does not throw. */
  function NextInTry(e: Engine, html: Field, k: nat, height: nat, bytes: Bytes): (q: Phase)
    requires k < 6 && TryErrors(e)[k].None?
    requires k == 5 ==> height == MeasuredHeight(e)
    ensures q == Next(e, Trying(k, html, height, bytes)).0
    ensures q.Trying? && q.k == k + 1 && q.html == html
    ensures q.k >= 5 ==> q.height == MeasuredHeight(e)
    ensures q.k == 6 ==> q.bytes == e.render.value
    ensures k < 4 ==> q.height == height
    ensures k < 5 ==> q.bytes == bytes
  {
    Next(e, Trying(k, html, height, bytes)).0
  }

  /** From the launch on, the handler runs as the reference says. */
  lemma LaunchingFollowsReference(e: Engine, html: Field)
    ensures var r := Run(e, Launching(html));
      && r.1[..1] == [Launch(true, LaunchArgs)]
      && (e.launch.Fails? ==> r == (Rejected(LaunchFailed(e.launch.error)), [Launch(true, LaunchArgs)]))
      && (e.launch.Succeeds? ==> r == (TryReference(e, html, 0, []).0, [Launch(true, LaunchArgs)] + TryReference(e, html, 0, []).1))
  {
    if e.launch.Succeeds? {
      TryingFollowsReference(e, html, 0, 0, []);
    } else {
      assert [Launch(true, LaunchArgs)] + [] == [Launch(true, LaunchArgs)];
    }
  }

  /** The handler does, for every request and every browser behaviour, what
      the reference description says. */
  lemma PostFollowsReference(body: Body, e: Engine)
    ensures Post(body, e) == Reference(body, e)
  {
    var html := PostedHtml(body);
    if !body.Malformed? && !body.JsonNull? {
      var checked := Run(e, Check(html));
      assert [] + checked.1 == checked.1;
      assert Run(e, Parse(body)) == checked;
      if Truthy(html) {
        var launched := Run(e, Launching(html));
        assert [] + launched.1 == launched.1;
        assert checked == launched;
        LaunchingFollowsReference(e, html);
        assert launched == Reference(body, e);
      } else {
        assert Run(e, Finished(NoHtml)) == (NoHtml, []);
        assert checked == (NoHtml, [] + []);
      }
    } else {
      var rejection := if body.Malformed? then BadJson else NullBody;
      assert Run(e, Finished(Rejected(rejection))) == (Rejected(rejection), []);
      var none: seq<Call> := [];
      assert Post(body, e) == (Rejected(rejection), none + none);
      assert none + none == none;
    }
  }

  // ----- What the reference says -----

  /** The calls a request makes once the browser is up: all of them when
      nothing throws, otherwise those up to the failing one followed by the
      `close` of the `catch`. */
  lemma CallsOnceLaunched(body: Body, e: Engine)
    requires (body.JsonObject? || body.JsonOther?) && Truthy(PostedHtml(body))
    requires e.launch.Succeeds?
    ensures var calls := Post(body, e).1; var all := TryCalls(PostedHtml(body), e);
      match FirstError(TryErrors(e), 0)
      case None => calls == [Launch(true, LaunchArgs)] + all
      case Some(i) => calls == [Launch(true, LaunchArgs)] + all[..i + 1] + [Close]
  {
    PostFollowsReference(body, e);
  }

  /** A request without a truthy `html` gets 400 `No HTML`, and the browser
      is never launched. */
  lemma NoHtmlLaunchesNothing(body: Body, e: Engine)
    requires body.JsonObject? || body.JsonOther?
    requires !Truthy(PostedHtml(body))
    ensures Post(body, e) == (NoHtml, [])
  {
    PostFollowsReference(body, e);
  }

  /** A body that is not JSON, or is JSON `null`, makes the handler throw
      before it looks for `html`. */
  lemma UnreadableBodyRejected(body: Body, e: Engine)
    requires body.Malformed? || body.JsonNull?
    ensures Post(body, e).0.Rejected? && Post(body, e).1 == []
    ensures Post(body, e).0.rejection == (if body.Malformed? then BadJson else NullBody)
  {
    PostFollowsReference(body, e);
  }

  /** A failed launch happens before the `try`: the handler throws, having
      made no other call and never closing anything. */
  lemma LaunchFailureClosesNothing(body: Body, e: Engine)
    requires (body.JsonObject? || body.JsonOther?) && Truthy(PostedHtml(body))
    requires e.launch.Fails?
    ensures Post(body, e).0 == Rejected(LaunchFailed(e.launch.error))
    ensures Post(body, e).1 == [Launch(true, LaunchArgs)]
    ensures Close !in Post(body, e).1
  {
    PostFollowsReference(body, e);
  }

  /** The first `n` calls of the `try` block hold a `close` only when they
      are all seven. */
  lemma ClosesInTryCalls(html: Field, e: Engine, n: nat)
    requires n <= 7
    ensures multiset(TryCalls(html, e)[..n])[Close] == if n == 7 then 1 else 0
  {
    var all := TryCalls(html, e);
    if n < 7 {
      forall j | 0 <= j < n
        ensures all[..n][j] != Close
      {
        assert all[j] != Close;
      }
      assert Close !in all[..n];
    } else {
      assert all[..n] == all[..6] + [Close];
      forall j | 0 <= j < 6
        ensures all[..6][j] != Close
      {
        assert all[j] != Close;
      }
      assert Close !in all[..6];
    }
  }

  /** Once the browser is up, the last call is always `close`. It is called
      once, or twice exactly when the `close` in the `try` itself throws. */
  lemma BrowserAlwaysClosed(body: Body, e: Engine)
    requires (body.JsonObject? || body.JsonOther?) && Truthy(PostedHtml(body))
    requires e.launch.Succeeds?
    ensures var calls := Post(body, e).1;
      && |calls| > 0 && calls[0] == Launch(true, LaunchArgs) && calls[|calls| - 1] == Close
      && multiset(calls)[Close] == (if FirstError(TryErrors(e), 0) == Some(6) then 2 else 1)
  {
    CallsOnceLaunched(body, e);
    match FirstError(TryErrors(e), 0)
    case None => ClosedAfterAll(PostedHtml(body), e);
    case Some(i) => ClosedAfterFailure(PostedHtml(body), e, i);
  }

  /** The calls of a run in which nothing throws end in the one `close`. */
  lemma ClosedAfterAll(html: Field, e: Engine)
    ensures var calls := [Launch(true, LaunchArgs)] + TryCalls(html, e);
      calls[|calls| - 1] == Close && multiset(calls)[Close] == 1
  {
    var all := TryCalls(html, e);
    var launch := [Launch(true, LaunchArgs)];
    assert multiset(launch)[Close] == 0;
    ClosesInTryCalls(html, e, 7);
    assert all[..7] == all;
    assert multiset(launch + all) == multiset(launch) + multiset(all);
  }

  /** The calls of a run in which the `i`-th call of the `try` block throws
      end in the `close` of the `catch`, which is a second `close` when the
      call that threw was the `try` block's own. */
  lemma ClosedAfterFailure(html: Field, e: Engine, i: nat)
    requires i < 7
    ensures var calls := [Launch(true, LaunchArgs)] + TryCalls(html, e)[..i + 1] + [Close];
      calls[|calls| - 1] == Close && multiset(calls)[Close] == if i == 6 then 2 else 1
  {
    var all := TryCalls(html, e);
    var launch := [Launch(true, LaunchArgs)];
    assert multiset(launch)[Close] == 0;
    ClosesInTryCalls(html, e, i + 1);
    var calls := launch + all[..i + 1] + [Close];
    assert multiset(calls) == multiset(launch) + multiset(all[..i + 1]) + multiset([Close]);
  }

  /** The 200 response comes exactly when every call succeeds; it carries
      the exported bytes and the PDF headers, and it is sent after every
      call, the one `close` last. */
  lemma SuccessExactlyWhenAllSucceed(body: Body, e: Engine)
    ensures Post(body, e).0.Responded? && Post(body, e).0.response.status == 200 <==>
      && (body.JsonObject? || body.JsonOther?) && Truthy(PostedHtml(body))
      && e.launch.Succeeds? && FirstError(TryErrors(e), 0).None?
    ensures Post(body, e).0.Responded? && Post(body, e).0.response.status == 200 ==>
      && e.render.Ok?
      && Post(body, e).0 == Success(e.render.value)
      && Post(body, e).1 == [Launch(true, LaunchArgs)] + TryCalls(PostedHtml(body), e)
  {
    PostFollowsReference(body, e);
    if (body.JsonObject? || body.JsonOther?) && Truthy(PostedHtml(body)) && e.launch.Succeeds? {
      match FirstError(TryErrors(e), 0)
      case None =>
        assert TryErrors(e)[5].None?;
      case Some(i) =>
    }
  }

  /** When a call inside the `try` throws and the browser closes, the answer
      is 500 with that call's error text and carries no PDF. */
  lemma FailureAnswers500(body: Body, e: Engine, i: nat)
    requires (body.JsonObject? || body.JsonOther?) && Truthy(PostedHtml(body))
    requires e.launch.Succeeds? && e.closeInCatch.Succeeds?
    requires FirstError(TryErrors(e), 0) == Some(i)
    ensures Post(body, e).0 == Responded(Response(500, JsonHeaders, JsonError(TryErrors(e)[i].value)))
    ensures !Post(body, e).0.response.payload.PdfBytes?
  {
    PostFollowsReference(body, e);
  }

  /** The PDF is exported at a scale between 0.1 and 1, the one for the
      measured height. */
  lemma ExportScaleInRange(body: Body, e: Engine, o: PdfOptions)
    requires Pdf(o) in Post(body, e).1
    ensures e.measure.Ok? && o.scale == Fit.PdfScale(MeasuredHeight(e))
    ensures Fit.MinScale <= o.scale <= 1.0
  {
    var j := InTryCalls(body, e, Pdf(o));
    var all := TryCalls(PostedHtml(body), e);
    assert all[j] == Pdf(o);
    assert j == 5;
    var errors := TryErrors(e);
    var i := FirstError(errors, 0);
    assert i.None? || i.value >= j;
    assert errors[4].None?;
  }

  /** The posted `html` reaches the browser as it was posted: the server does
      not clean it. */
  lemma ContentIsPostedHtml(body: Body, e: Engine, html: Field, waitUntil: string, timeout: nat)
    requires SetContent(html, waitUntil, timeout) in Post(body, e).1
    ensures html == PostedHtml(body) && Truthy(html)
    ensures waitUntil == "networkidle0" && timeout == 15000
  {
    var j := InTryCalls(body, e, SetContent(html, waitUntil, timeout));
    var all := TryCalls(PostedHtml(body), e);
    assert all[j] == SetContent(html, waitUntil, timeout);
    assert j == 3;
  }

  /** A call other than `launch` and `close` that the handler makes is one
      of the `try` block's calls, made after a successful launch, and every
      call before it succeeded. */
  lemma InTryCalls(body: Body, e: Engine, c: Call) returns (j: nat)
    requires c in Post(body, e).1 && !c.Launch? && c != Close
    ensures (body.JsonObject? || body.JsonOther?) && Truthy(PostedHtml(body)) && e.launch.Succeeds?
    ensures j < 7 && TryCalls(PostedHtml(body), e)[j] == c
    ensures FirstError(TryErrors(e), 0).None? || FirstError(TryErrors(e), 0).value >= j
  {
    PostFollowsReference(body, e);
    CallsOnceLaunched(body, e);
    var calls := Post(body, e).1;
    var all := TryCalls(PostedHtml(body), e);
    match FirstError(TryErrors(e), 0)
    case None =>
      assert c in all;
      j :| 0 <= j < 7 && all[j] == c;
    case Some(i) =>
      assert c in all[..i + 1];
      var m :| 0 <= m < i + 1 && all[..i + 1][m] == c;
      j := m;
  }
}
