/**
 * The state of the `Camera` component and the handlers that change it:
 * `capturePhoto`, `retake`, `onSubmit`, the effect that reacts to a new
 * response of the analysis action, and the `step` callbacks of the
 * typewriter reveal that effect starts.
 *
 * React state setters are modelled as assignments taking effect in program
 * order (a functional update `setTypedHtml(prev => prev + chunk)` reads the
 * latest value). Each `step` callback still waiting on `setTimeout` is a
 * pending reveal in `timers`; firing one is `Step`. The effect has no cleanup
 * function, so neither a retake nor a newer response removes a pending reveal.
 */
module Session {
  import opened Wrappers
  import Crop
  import Sanitize
  import Sections

  const NotReadyMessage: string := "Kamera Belum siap, coba ditunggu sebentar brow!"
  const NoPhotoMessage: string := "Belum ada foto. Ambil foto dulu"

  /** An encoded still image, as `canvas.toDataURL` returns it: opaque and never empty. */
  type DataUrl = s: string | s != [] witness "data:,"

  /** A request id, as `onSubmit` builds it from the clock and a random suffix: opaque and never empty. */
  type RequestId = s: string | s != [] witness "0-0"

  /** The handle of a pending `step` callback. */
  type TimerId = nat

  /** What the camera element reports: `videoWidth` and `videoHeight`. */
  datatype Video = Video(videoWidth: nat, videoHeight: nat)

  /** The form data sent to the analysis action: fields `image` and `rid`. */
  datatype Request = Request(image: string, rid: string)

  /** A state of the analysis action: `{ok, html, rid}`; `html` and `rid` may be missing or not strings. */
  datatype Response = Response(ok: bool, html: Option<string>, rid: Option<string>)

  /** A pending reveal: the parts being revealed and the closure's counter `i`. */
  datatype Reveal = Reveal(parts: seq<string>, next: nat)

  /** The counter does not pass the parts, and no part is empty. */
  ghost predicate WellFormed(r: Reveal)
  {
    r.next <= |r.parts| && forall k :: 0 <= k < |r.parts| ==> r.parts[k] != []
  }

  /** `typeof state.html === "string" ? state.html : ""`. */
  function RawHtml(resp: Response): (raw: string)
    ensures resp.html.Some? ==> raw == resp.html.value
    ensures resp.html.None? ==> raw == ""
  {
    resp.html.GetOr("")
  }

  /** `!raw.trim()`: the string is empty or all white space. */
  predicate IsBlank(s: string)
  {
    Sanitize.AllSpaceBetween(s, 0, |s|)
  }

  /** A string is blank exactly when nothing is left once its trailing white space is cut off. */
  lemma BlankWhenTrimmedEmpty(s: string)
    ensures IsBlank(s) <==> Sanitize.TrimEnd(s, |s|) == 0
  {
    var m := Sanitize.TrimEnd(s, |s|);
    assert m > 0 ==> !Sanitize.IsSpace(s[m - 1]);
  }

  /**
   * The guard of the effect: act only on `state.ok` with
   * `String(state.rid ?? "") === ridRef.current`. A response without an id
   * matches only while no id is recorded.
   */
  function Accepts(resp: Response, current: string): (accepted: bool)
    ensures accepted ==> resp.ok
    ensures resp.ok && resp.rid.Some? ==> (accepted <==> resp.rid.value == current)
    ensures resp.ok && resp.rid.None? ==> (accepted <==> current == "")
  {
    resp.ok && resp.rid.GetOr("") == current
  }

  /**
   * `htmlToRender`: the revealed text while there is any; while a reveal is on
   * and nothing is revealed yet, nothing; otherwise the whole response. All of
   * it goes through the sanitiser.
   */
  function RenderedHtml(typed: string, typing: bool, response: string): (r: string)
    ensures typed != "" ==> r == Sanitize.CleanUpHtml(Some(typed))
    ensures typed == "" && typing ==> r == ""
    ensures typed == "" && !typing ==> r == Sanitize.CleanUpHtml(Some(response))
    ensures |r| <= |typed| + |response|
  {
    Sanitize.CleanUpHtml(Some(if typed != "" then typed else if typing then "" else response))
  }

  class CameraSession {
    var photoDataUrl: string
    var isLoading: bool
    var errorMessage: string
    var typedHtml: string
    var isTyping: bool
    var responseHtml: string
    /** `ridRef.current`: the id recorded by the last submit that was sent. */
    var rid: string
    /** The `step` callbacks still scheduled, by handle. */
    var timers: map<TimerId, Reveal>
    var nextTimer: TimerId

    /**
     * Handles of pending reveals are below `nextTimer`; their counters do not
     * pass their parts, and no part is empty (so the zero-delay skip branch of
     * `step` is never taken). While a request is outstanding an id is recorded.
     */
    ghost predicate Valid()
      reads this
    {
      && (forall id :: id in timers ==> id < nextTimer && WellFormed(timers[id]))
      && (isLoading ==> rid != "")
    }

    /** What the component renders into the result area (when not loading). */
    function HtmlToRender(): string
      reads this
    {
      RenderedHtml(typedHtml, isTyping, responseHtml)
    }

    /** The component's initial state. */
    constructor ()
      ensures Valid()
      ensures photoDataUrl == "" && !isLoading && errorMessage == ""
      ensures typedHtml == "" && !isTyping && responseHtml == ""
      ensures rid == "" && timers == map[]
    {
      photoDataUrl, isLoading, errorMessage := "", false, "";
      typedHtml, isTyping, responseHtml := "", false, "";
      rid := "";
      timers, nextTimer := map[], 0;
    }

    /**
     * `capturePhoto`: without a video, a canvas or a video width, report that
     * the camera is not ready and keep the photo; otherwise clear the error,
     * draw the centre crop at the target size and keep the encoded image.
     * `drawn` is the `drawImage` call made, if any.
     */
    method CapturePhoto(video: Option<Video>, hasCanvas: bool, portrait: bool, encoded: DataUrl)
      returns (drawn: Option<Crop.Draw>)
      requires Valid()
      modifies this
      ensures Valid()
      ensures var ready := video.Some? && hasCanvas && video.value.videoWidth > 0;
        && (!ready ==> errorMessage == NotReadyMessage && photoDataUrl == old(photoDataUrl) && drawn == None)
        && (ready ==>
              && errorMessage == "" && photoDataUrl == encoded
              && drawn == Some(Crop.CapturePlan(video.value.videoWidth, video.value.videoHeight, portrait))
              && Crop.InsideAndCentred(video.value.videoWidth, video.value.videoHeight, drawn.value.source))
      ensures isLoading == old(isLoading) && typedHtml == old(typedHtml) && isTyping == old(isTyping)
      ensures responseHtml == old(responseHtml) && rid == old(rid)
      ensures timers == old(timers) && nextTimer == old(nextTimer)
    {
      errorMessage := "";
      if video.None? || !hasCanvas || video.value.videoWidth == 0 {
        errorMessage := NotReadyMessage;
        return None;
      }
      var vw, vh := video.value.videoWidth, video.value.videoHeight;
      Crop.CropWithinFrame(vw, vh, portrait);
      drawn := Some(Crop.CapturePlan(vw, vh, portrait));
      photoDataUrl := encoded;
    }

    /** `retake`: clear the photo, the result, the reveal and the indicators; the recorded id and pending reveals stay. */
    method Retake()
      requires Valid()
      modifies this
      ensures Valid()
      ensures photoDataUrl == "" && responseHtml == "" && typedHtml == ""
      ensures !isTyping && !isLoading && errorMessage == ""
      ensures rid == old(rid) && timers == old(timers) && nextTimer == old(nextTimer)
    {
      photoDataUrl := "";
      responseHtml := "";
      typedHtml := "";
      isTyping := false;
      isLoading := false;
      errorMessage := "";
    }

    /**
     * `onSubmit`: with no photo, prevent the submission and report it;
     * otherwise record `newRid`, send it with the photo, and show loading with
     * an empty reveal.
     */
    method Submit(newRid: RequestId) returns (request: Option<Request>)
      requires Valid()
      modifies this
      ensures Valid()
      ensures old(photoDataUrl) == "" ==>
        && request == None && errorMessage == NoPhotoMessage && rid == old(rid)
        && isLoading == old(isLoading) && typedHtml == old(typedHtml) && isTyping == old(isTyping)
      ensures old(photoDataUrl) != "" ==>
        && request == Some(Request(old(photoDataUrl), newRid)) && rid == newRid
        && isLoading && typedHtml == "" && isTyping && errorMessage == ""
      ensures photoDataUrl == old(photoDataUrl) && responseHtml == old(responseHtml)
      ensures timers == old(timers) && nextTimer == old(nextTimer)
    {
      if photoDataUrl == "" {
        errorMessage := NoPhotoMessage;
        return None;
      }
      rid := newRid;
      request := Some(Request(photoDataUrl, newRid));
      isLoading := true;
      typedHtml := "";
      isTyping := true;
      errorMessage := "";
    }

    /**
     * The effect run on a new action state. A response that is not `ok` or
     * carries another id than the recorded one changes nothing. An accepted
     * blank response clears the result. An accepted response with content is
     * shown in full once revealed: its parts are revealed by a new `step`
     * timeline, whose first call runs at once; `started` is its handle.
     */
    method OnResponse(resp: Response) returns (started: Option<TimerId>)
      requires Valid()
      modifies this
      ensures Valid()
      ensures !Accepts(resp, old(rid)) ==>
        && started == None
        && isLoading == old(isLoading) && responseHtml == old(responseHtml)
        && typedHtml == old(typedHtml) && isTyping == old(isTyping)
        && timers == old(timers) && nextTimer == old(nextTimer)
      ensures Accepts(resp, old(rid)) && IsBlank(RawHtml(resp)) ==>
        && started == None && !isLoading
        && responseHtml == "" && typedHtml == "" && !isTyping
        && timers == old(timers) && nextTimer == old(nextTimer)
      ensures Accepts(resp, old(rid)) && !IsBlank(RawHtml(resp)) ==>
        var parts := Sections.Sections(RawHtml(resp));
        && |parts| >= 1
        && started == Some(old(nextTimer)) && old(nextTimer) !in old(timers)
        && !isLoading && responseHtml == RawHtml(resp)
        && typedHtml == parts[0] && isTyping
        && timers == old(timers)[old(nextTimer) := Reveal(parts, 1)]
        && nextTimer == old(nextTimer) + 1
      ensures photoDataUrl == old(photoDataUrl) && errorMessage == old(errorMessage) && rid == old(rid)
    {
      if !Accepts(resp, rid) {
        return None;
      }
      var raw := RawHtml(resp);
      isLoading := false;
      if IsBlank(raw) {
        responseHtml := "";
        typedHtml := "";
        isTyping := false;
        return None;
      }
      responseHtml := raw;
      started := StartReveal(raw);
    }

    /**
     * The rest of the effect for a response with content: split it into its
     * parts, restart the typing state and call `step` of a new timeline once.
     */
    method StartReveal(raw: string) returns (started: Option<TimerId>)
      requires Valid() && raw != []
      modifies this
      ensures Valid()
      ensures var parts := Sections.Sections(raw);
        && |parts| >= 1
        && started == Some(old(nextTimer)) && old(nextTimer) !in old(timers)
        && typedHtml == parts[0] && isTyping
        && timers == old(timers)[old(nextTimer) := Reveal(parts, 1)]
        && nextTimer == old(nextTimer) + 1
      ensures photoDataUrl == old(photoDataUrl) && isLoading == old(isLoading) && errorMessage == old(errorMessage)
      ensures responseHtml == old(responseHtml) && rid == old(rid)
    {
      var parts := Sections.Sections(raw);
      assert WellFormed(Reveal(parts, 0));
      typedHtml := "";
      isTyping := true;
      var id := nextTimer;
      timers := timers[id := Reveal(parts, 0)];
      nextTimer := nextTimer + 1;
      Step(id);
      started := Some(id);
    }

    /**
     * One call of the `step` closure of reveal `id`: past the last part it
     * ends the typing state and is not rescheduled; otherwise it takes the next
     * part, appends it to the revealed text and reschedules itself.
     */
    method Step(id: TimerId)
      requires Valid() && id in timers
      modifies this
      ensures Valid()
      ensures var r := old(timers[id]);
        if r.next >= |r.parts| then
          && !isTyping && typedHtml == old(typedHtml)
          && timers == old(timers) - {id}
        else
          && isTyping == old(isTyping) && typedHtml == old(typedHtml) + r.parts[r.next]
          && timers == old(timers)[id := Reveal(r.parts, r.next + 1)]
      ensures photoDataUrl == old(photoDataUrl) && isLoading == old(isLoading)
      ensures errorMessage == old(errorMessage) && responseHtml == old(responseHtml)
      ensures rid == old(rid) && nextTimer == old(nextTimer)
    {
      var r := timers[id];
      if r.next >= |r.parts| {
        isTyping := false;
        timers := timers - {id};
        return;
      }
      var chunk := r.parts[r.next];
      timers := timers[id := Reveal(r.parts, r.next + 1)];
      if chunk == "" {
        // rescheduled after 0 ms without appending anything
        return;
      }
      typedHtml := typedHtml + chunk;
    }

    /**
     * `ticks` firings of reveal `id` with no other event in between. While
     * parts remain, each appends the next part and typing stays as it was;
     * the firing after the last part ends the typing state and the reveal.
     */
    method Advance(id: TimerId, ticks: nat)
      requires Valid() && id in timers
      modifies this
      ensures Valid()
      ensures var r := old(timers[id]);
        r.next + ticks <= |r.parts| ==>
          && isTyping == old(isTyping)
          && typedHtml == old(typedHtml) + Sections.Concat(r.parts[r.next..r.next + ticks])
          && timers == old(timers)[id := Reveal(r.parts, r.next + ticks)]
      ensures var r := old(timers[id]);
        r.next + ticks > |r.parts| ==>
          && !isTyping
          && typedHtml == old(typedHtml) + Sections.Concat(r.parts[r.next..])
          && timers == old(timers) - {id}
      ensures photoDataUrl == old(photoDataUrl) && isLoading == old(isLoading)
      ensures errorMessage == old(errorMessage) && responseHtml == old(responseHtml)
      ensures rid == old(rid) && nextTimer == old(nextTimer)
    {
      ghost var parts := timers[id].parts;
      ghost var from := timers[id].next;
      var i := 0;
      while i < ticks && id in timers
        invariant Valid()
        invariant 0 <= i <= ticks
        invariant id in timers ==>
          && from + i <= |parts| && isTyping == old(isTyping)
          && typedHtml == old(typedHtml) + Sections.Concat(parts[from..from + i])
          && timers == old(timers)[id := Reveal(parts, from + i)]
        invariant id !in timers ==>
          && from + i == |parts| + 1 && !isTyping
          && typedHtml == old(typedHtml) + Sections.Concat(parts[from..])
          && timers == old(timers) - {id}
        invariant photoDataUrl == old(photoDataUrl) && isLoading == old(isLoading)
        invariant errorMessage == old(errorMessage) && responseHtml == old(responseHtml)
        invariant rid == old(rid) && nextTimer == old(nextTimer)
      {
        Step(id);
        if from + i < |parts| {
          Sections.ConcatExtend(parts, from, from + i);
        } else {
          assert parts[from..from + i] == parts[from..];
        }
        i := i + 1;
      }
    }

    /**
     * A response followed by its whole reveal with no other event in between:
     * an accepted response with content ends up revealed exactly, and the
     * sanitised response is what is rendered.
     */
    method RespondAndReveal(resp: Response)
      requires Valid()
      modifies this
      ensures Valid()
      ensures Accepts(resp, old(rid)) && !IsBlank(RawHtml(resp)) ==>
        && typedHtml == RawHtml(resp) && responseHtml == RawHtml(resp)
        && !isTyping && !isLoading
        && HtmlToRender() == Sanitize.CleanUpHtml(Some(RawHtml(resp)))
      ensures !Accepts(resp, old(rid)) ==>
        && isLoading == old(isLoading) && responseHtml == old(responseHtml)
        && typedHtml == old(typedHtml) && isTyping == old(isTyping)
      ensures timers == old(timers) && rid == old(rid) && photoDataUrl == old(photoDataUrl)
    {
      ghost var before := timers;
      var accepted := Accepts(resp, rid);
      var raw := RawHtml(resp);
      var started := OnResponse(resp);
      if accepted && !IsBlank(raw) {
        FinishReveal(started.value, raw);
        assert timers == before;
      }
    }

    /**
     * The remaining firings of a reveal that has shown its first part: they
     * complete the text to the whole response and end the typing state.
     */
    method FinishReveal(id: TimerId, raw: string)
      requires Valid() && raw != []
      requires id in timers && timers[id] == Reveal(Sections.Sections(raw), 1)
      requires typedHtml == Sections.Sections(raw)[0]
      modifies this
      ensures Valid()
      ensures typedHtml == raw && !isTyping && timers == old(timers) - {id}
      ensures photoDataUrl == old(photoDataUrl) && isLoading == old(isLoading)
      ensures errorMessage == old(errorMessage) && responseHtml == old(responseHtml)
      ensures rid == old(rid) && nextTimer == old(nextTimer)
    {
      var parts := Sections.Sections(raw);
      Advance(id, |parts|);
      Sections.FirstAndRest(raw);
    }
  }
}
