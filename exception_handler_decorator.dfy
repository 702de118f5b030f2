/** The Laravel 5 exception handler decorator of the Codeception connector.
    It wraps Laravel's own exception handler and, while Laravel's exception
    handling is disabled (the default), turns the fallback error page that
    Symfony's exception handler renders back into the original exception,
    so that a test sees the exception instead of an HTML page. */
module Laravel5 {
  import opened Substring

  /** The part of a Symfony `Response` the decorator looks at: its body.
      The status stands for everything else the response carries, which the
      decorator passes on untouched. */
  datatype Response = Response(status: int, content: string)

  /** How a call to `render` ends: it returns a response, or it throws. */
  datatype Rendered<Exc> = Return(response: Response) | Throw(exception: Exc)

  /** Laravel's exception handler, as far as the decorator depends on it:
      what its `render` does for a request and an exception (it may throw
      itself), and its own `shouldReport` policy, which the decorator ignores. */
  datatype LaravelHandler<!Req, !Exc> =
    LaravelHandler(render: (Req, Exc) -> Rendered<Exc>, shouldReport: Exc -> bool)

  /** The calls the decorator passes on to Laravel's handler, in order. */
  datatype DelegateCall<Req, Exc, Out> =
    | ReportCall(reported: Exc)
    | RenderCall(request: Req, rendered: Exc)
    | RenderForConsoleCall(output: Out, failed: Exc)

  /** The markup that opens the fallback error page of Symfony's exception handler. */
  const ResetContentMarker: string := "<div id=\"sf-resetcontent\" class=\"sf-reset\">"
  /** The markup of the exception summary on the same page. */
  const ExceptionSummaryMarker: string := "<div class=\"exception-summary\">"

  /** The response body is HTML output of Symfony's exception handler: one of
      the two markers occurs in it, exactly as written, anywhere. */
  predicate SymfonyExceptionHandlerOutput(content: string)
  {
    Contains(content, ResetContentMarker) || Contains(content, ExceptionSummaryMarker)
  }

  /** `isSymfonyExceptionHandlerOutput`: two `strpos` calls, each compared
      with `false`, joined by a short-circuit `||`. */
  method IsSymfonyExceptionHandlerOutput(content: string) returns (b: bool)
    ensures b <==> SymfonyExceptionHandlerOutput(content)
  {
    var reset := StrPos(content, ResetContentMarker);
    if reset.Found? {
      return true;
    }
    var summary := StrPos(content, ExceptionSummaryMarker);
    b := summary.Found?;
  }

  /** The decision `render` takes once Laravel's handler has answered:
      an exception thrown by the handler propagates as it is; a response
      is replaced by the original exception `e` exactly when exception
      handling is disabled and the body is Symfony's fallback page, and is
      otherwise returned unchanged. */
  function RenderPolicy<Exc>(disabled: bool, delegated: Rendered<Exc>, e: Exc): (o: Rendered<Exc>)
    ensures delegated.Throw? ==> o == delegated
    ensures delegated.Return? ==>
      (o.Throw? <==> disabled && SymfonyExceptionHandlerOutput(delegated.response.content))
    ensures delegated.Return? && o.Throw? ==> o.exception == e
    ensures o.Return? ==> o == delegated
  {
    match delegated
    case Throw(_) => delegated
    case Return(response) =>
      if disabled && SymfonyExceptionHandlerOutput(response.content) then Throw(e) else delegated
  }

  /** With exception handling enabled the decorator is transparent: whatever
      Laravel's handler does, `render` does the same. */
  lemma EnabledHandlingIsTransparent<Exc>(delegated: Rendered<Exc>, e: Exc)
    ensures RenderPolicy(false, delegated, e) == delegated
  {
  }

  /** A body without either marker is never turned into an exception,
      whatever the flag. */
  lemma UnmarkedResponseIsReturned<Exc>(disabled: bool, response: Response, e: Exc)
    requires !Contains(response.content, ResetContentMarker)
    requires !Contains(response.content, ExceptionSummaryMarker)
    ensures RenderPolicy(disabled, Return(response), e) == Return(response)
  {
  }

  /** A page that holds the exception summary markup anywhere, at its very
      start included, makes `render` throw the original exception while
      exception handling is disabled. */
  lemma SummaryPageRethrows<Exc>(pre: string, post: string, status: int, e: Exc)
    ensures RenderPolicy(true, Return(Response(status, pre + ExceptionSummaryMarker + post)), e) == Throw(e)
  {
    OccursInPlace(pre, ExceptionSummaryMarker, post);
  }

  /** The same for a page that holds the reset-content markup. */
  lemma ResetPageRethrows<Exc>(pre: string, post: string, status: int, e: Exc)
    ensures RenderPolicy(true, Return(Response(status, pre + ResetContentMarker + post)), e) == Throw(e)
  {
    OccursInPlace(pre, ResetContentMarker, post);
  }

  /** Once a body is recognised as Symfony's fallback page, adding markup
      around it does not hide it. */
  lemma RecognitionSurvivesWrapping(pre: string, content: string, post: string)
    requires SymfonyExceptionHandlerOutput(content)
    ensures SymfonyExceptionHandlerOutput(pre + content + post)
  {
    if Contains(content, ResetContentMarker) {
      ContainsInContext(pre, content, post, ResetContentMarker);
    } else {
      ContainsInContext(pre, content, post, ExceptionSummaryMarker);
    }
  }

  /** A custom error page is returned as it is, even with exception
      handling disabled. */
  lemma CustomPageIsReturned<Exc>(e: Exc)
    ensures RenderPolicy(true, Return(Response(500, "<html>Custom 500 page</html>")), e)
         == Return(Response(500, "<html>Custom 500 page</html>"))
  {
    TooShortToContain("<html>Custom 500 page</html>", ResetContentMarker);
    TooShortToContain("<html>Custom 500 page</html>", ExceptionSummaryMarker);
  }

  /** The markers are matched case-sensitively: the summary markup written
      in upper case is not recognised. */
  lemma UpperCaseMarkupIsNotRecognised()
    ensures !SymfonyExceptionHandlerOutput("<DIV CLASS=\"EXCEPTION-SUMMARY\">")
  {
    var shouted := "<DIV CLASS=\"EXCEPTION-SUMMARY\">";
    TooShortToContain(shouted, ResetContentMarker);
    MismatchRulesOut(shouted, ExceptionSummaryMarker, 1);
  }

  /** `ExceptionHandlerDecorator`: wraps Laravel's handler and holds the one
      flag the connector sets between tests. `forwarded` records the calls
      passed on to Laravel's handler; it is not part of the PHP object and
      exists only to state what is forwarded. */
  class ExceptionHandlerDecorator<Req, Exc, Out> {
    const laravelExceptionHandler: LaravelHandler<Req, Exc>
    var exceptionHandlingDisabled: bool
    ghost var forwarded: seq<DelegateCall<Req, Exc, Out>>

    /** A new decorator wraps the given handler with exception handling disabled. */
    constructor (handler: LaravelHandler<Req, Exc>)
      ensures laravelExceptionHandler == handler
      ensures exceptionHandlingDisabled
      ensures forwarded == []
    {
      laravelExceptionHandler := handler;
      exceptionHandlingDisabled := true;
      forwarded := [];
    }

    /** The setter `exceptionHandlingDisabled($b)`: the flag becomes `b`,
        nothing else changes, so a repeated call changes nothing more. */
    method SetExceptionHandlingDisabled(b: bool)
      modifies this`exceptionHandlingDisabled
      ensures exceptionHandlingDisabled == b
    {
      exceptionHandlingDisabled := b;
    }

    /** `report` passes the exception on to Laravel's handler, once. */
    method Report(e: Exc)
      modifies this`forwarded
      ensures forwarded == old(forwarded) + [ReportCall(e)]
    {
      forwarded := forwarded + [ReportCall(e)];
    }

    /** `shouldReport` answers with the flag, for every exception and
        regardless of what Laravel's own `shouldReport` would say. */
    method ShouldReport(e: Exc) returns (r: bool)
      ensures r == exceptionHandlingDisabled
    {
      r := exceptionHandlingDisabled;
    }

    /** `render` asks Laravel's handler once, then applies the policy with
        the current flag; the flag and the handler stay as they were. */
    method Render(request: Req, e: Exc) returns (o: Rendered<Exc>)
      modifies this`forwarded
      ensures forwarded == old(forwarded) + [RenderCall(request, e)]
      ensures o == RenderPolicy(exceptionHandlingDisabled, laravelExceptionHandler.render(request, e), e)
    {
      forwarded := forwarded + [RenderCall(request, e)];
      var delegated := laravelExceptionHandler.render(request, e);
      if delegated.Throw? {
        return delegated;
      }
      var unhandled := false;
      if exceptionHandlingDisabled {
        unhandled := IsSymfonyExceptionHandlerOutput(delegated.response.content);
      }
      if unhandled {
        return Throw(e);
      }
      o := delegated;
    }

    /** `renderForConsole` passes the output and the exception on to
        Laravel's handler, once, with no policy applied. */
    method RenderForConsole(output: Out, e: Exc)
      modifies this`forwarded
      ensures forwarded == old(forwarded) + [RenderForConsoleCall(output, e)]
    {
      forwarded := forwarded + [RenderForConsoleCall(output, e)];
    }
  }

  /** A test's view of the decorator: for a handler that renders Symfony's
      fallback page, a fresh decorator's `shouldReport` answers true and
      `render` throws the exception back; after the connector enables
      Laravel's exception handling, `shouldReport` answers false and the same
      page is returned. `report` is passed on to Laravel's handler in both
      states, and so is every `render`. */
  method FallbackPageScenario<Req, Exc, Out>(handler: LaravelHandler<Req, Exc>, request: Req, e: Exc)
    returns (before: Rendered<Exc>, shouldReportBefore: bool, after: Rendered<Exc>, shouldReportAfter: bool,
             ghost calls: seq<DelegateCall<Req, Exc, Out>>)
    requires handler.render(request, e) == Return(Response(500, "<div class=\"exception-summary\">...</div>"))
    ensures before == Throw(e) && shouldReportBefore
    ensures after == Return(Response(500, "<div class=\"exception-summary\">...</div>")) && !shouldReportAfter
    ensures calls == [RenderCall(request, e), ReportCall(e), RenderCall(request, e), ReportCall(e)]
  {
    var decorator := new ExceptionHandlerDecorator<Req, Exc, Out>(handler);
    shouldReportBefore := decorator.ShouldReport(e);
    SummaryPageRethrows<Exc>("", "...</div>", 500, e);
    assert "" + ExceptionSummaryMarker + "...</div>" == "<div class=\"exception-summary\">...</div>";
    before := decorator.Render(request, e);
    decorator.Report(e);
    decorator.SetExceptionHandlingDisabled(false);
    shouldReportAfter := decorator.ShouldReport(e);
    after := decorator.Render(request, e);
    decorator.Report(e);
    calls := decorator.forwarded;
  }

  /** `shouldReport` does not depend on Laravel's handler: two decorators
      whose handlers render alike but follow different `shouldReport`
      policies answer alike once their flags agree. */
  method ShouldReportIgnoresHandler<Req, Exc, Out>(handler: LaravelHandler<Req, Exc>, policy: Exc -> bool, flag: bool, e: Exc)
    returns (answer: bool, answerWithPolicy: bool)
    ensures answer == flag && answerWithPolicy == flag
  {
    var decorator := new ExceptionHandlerDecorator<Req, Exc, Out>(handler);
    var other := new ExceptionHandlerDecorator<Req, Exc, Out>(handler.(shouldReport := policy));
    decorator.SetExceptionHandlingDisabled(flag);
    other.SetExceptionHandlingDisabled(flag);
    answer := decorator.ShouldReport(e);
    answerWithPolicy := other.ShouldReport(e);
  }
}
