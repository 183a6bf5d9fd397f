/**
 * Sequences of events on one `CameraSession`, proved from the handlers'
 * contracts alone: what the component does when the user and the network
 * interleave.
 */
module Scenarios {
  import opened Wrappers
  import Sanitize
  import Sections
  import opened Session

  /** With the camera not ready no photo is taken, and a submit then sends nothing. */
  method NotReadyThenSubmit(image: DataUrl, id: RequestId, height: nat)
    returns (request: Option<Request>, error: string, photo: string)
    ensures request == None && error == NoPhotoMessage && photo == ""
  {
    var s := new CameraSession();
    var drawn := s.CapturePhoto(Some(Video(0, height)), true, true, image);
    assert s.errorMessage == NotReadyMessage;
    request := s.Submit(id);
    error, photo := s.errorMessage, s.photoDataUrl;
  }

  /**
   * Two submissions with different ids: after the newer response has been
   * revealed, the older one arriving late is ignored, whatever it holds.
   */
  method LateStaleResponseIgnored(image: DataUrl, first: RequestId, second: RequestId,
                                  staleHtml: Option<string>, freshHtml: string)
    returns (response: string, typed: string, loading: bool)
    requires first != second
    requires !IsBlank(freshHtml)
    ensures response == freshHtml && typed == freshHtml && !loading
  {
    var s := new CameraSession();
    var drawn := s.CapturePhoto(Some(Video(1280, 720)), true, false, image);
    var sent1 := s.Submit(first);
    var sent2 := s.Submit(second);
    assert s.rid == second;
    s.RespondAndReveal(Response(true, Some(freshHtml), Some(second)));
    s.RespondAndReveal(Response(true, staleHtml, Some(first)));
    response, typed, loading := s.responseHtml, s.typedHtml, s.isLoading;
  }

  /**
   * A retake does not cancel a reveal in progress: the pending `step` of the
   * earlier response still writes its next part into the cleared text.
   */
  method RevealSurvivesRetake(image: DataUrl, id: RequestId) returns (typed: string, photo: string)
    ensures photo == "" && typed == "<section>B</section>"
  {
    var raw := "<section>A</section><section>B</section>";
    Sections.ExampleTwoSections();
    assert !Sanitize.IsSpace(raw[0]);
    var s := new CameraSession();
    var drawn := s.CapturePhoto(Some(Video(1280, 720)), true, false, image);
    var sent := s.Submit(id);
    var started := s.OnResponse(Response(true, Some(raw), Some(id)));
    assert s.typedHtml == "<section>A</section>";
    s.Retake();
    assert s.typedHtml == "";
    s.Step(started.value);
    typed, photo := s.typedHtml, s.photoDataUrl;
  }

  /**
   * A retake does not forget the id of the request already sent: its response,
   * arriving after the retake, is still accepted and revealed while no photo
   * is shown.
   */
  method ResponseAfterRetakeRevealed(image: DataUrl, id: RequestId, html: string)
      returns (typed: string, photo: string, loading: bool)
    requires !IsBlank(html)
    ensures photo == "" && typed == html && !loading
  {
    var s := new CameraSession();
    var drawn := s.CapturePhoto(Some(Video(720, 1280)), true, true, image);
    var sent := s.Submit(id);
    s.Retake();
    assert s.rid == id;
    s.RespondAndReveal(Response(true, Some(html), Some(id)));
    typed, photo, loading := s.typedHtml, s.photoDataUrl, s.isLoading;
  }
}
