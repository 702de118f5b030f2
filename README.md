# Laravel 5 exception handler decorator, modelled in Dafny

Codeception's Laravel 5 connector installs `ExceptionHandlerDecorator` in place of
Laravel's exception handler. The decorator wraps the real handler. It holds one
flag, `exceptionHandlingDisabled`, which is `true` on construction and changed
only by its setter. The flag drives two decisions:

- `shouldReport` answers with the flag, whatever the exception and whatever
  Laravel's own `shouldReport` would say.
- `render` first lets Laravel's handler render the exception. It throws the
  original exception instead of returning the response exactly when the flag
  is set and the response body is the fallback error page of Symfony's
  exception handler. That page is recognised by a case-sensitive substring
  search for `<div id="sf-resetcontent" class="sf-reset">` or
  `<div class="exception-summary">`.

`report` and `renderForConsole` pass their arguments on to Laravel's handler.

The project has two modules:

- `Substring` (`substring.dfy`) specifies an occurrence of one string in
  another (`OccursAt`, `Contains`). It models PHP's `strpos` as a loop,
  `StrPos`, proved to return the first occurrence of a non-empty needle, or
  `NotFound` (PHP's `false`) exactly when there is none.
- `Laravel5` (`exception_handler_decorator.dfy`) holds the two markers and
  the recognition predicate. `IsSymfonyExceptionHandlerOutput` is the
  `strpos`-based method, proved equal to that predicate. `RenderPolicy` is the
  decision `render` takes. The class `ExceptionHandlerDecorator` has the flag
  as a mutable field and the wrapped handler as a constant.

Laravel's handler is a value of type `LaravelHandler`. It is an oracle: its
`render` maps a request and an exception to a `Rendered` outcome, and its own
`shouldReport` is also given. A PHP `throw` is the outcome `Throw(e)`. A
response is `Return(response)`. A ghost field, `forwarded`, records every call
the decorator passes on to Laravel's handler, so that "passed on once, with the
same arguments" can be stated.

## Model

| member | source | states |
|---|---|---|
| `Laravel5.ExceptionHandlerDecorator.constructor` | src/Codeception/Lib/Connector/Laravel5/ExceptionHandlerDecorator.php:22-32 | a new decorator wraps exactly the handler it was given, has the flag set (`true`), and has passed nothing on yet |
| `Laravel5.ExceptionHandlerDecorator.SetExceptionHandlingDisabled` | src/Codeception/Lib/Connector/Laravel5/ExceptionHandlerDecorator.php:37-40 | the flag becomes exactly the argument; only the flag may change, and the wrapped handler is a constant, so calling it twice with the same value has the effect of one call |
| `Laravel5.ExceptionHandlerDecorator.Report` | src/Codeception/Lib/Connector/Laravel5/ExceptionHandlerDecorator.php:48-51 | passes the exception on to Laravel's handler exactly once; the flag is untouched |
| `Laravel5.ExceptionHandlerDecorator.ShouldReport` | src/Codeception/Lib/Connector/Laravel5/ExceptionHandlerDecorator.php:59-62 | the answer is the current flag for every exception; the handler's own `shouldReport` plays no part and nothing changes |
| `Laravel5.ExceptionHandlerDecorator.Render` | src/Codeception/Lib/Connector/Laravel5/ExceptionHandlerDecorator.php:70-82 | asks Laravel's handler once with the same request and exception, and the outcome is `RenderPolicy` of the current flag and the handler's answer; the flag and the handler are unchanged |
| `Laravel5.ExceptionHandlerDecorator.RenderForConsole` | src/Codeception/Lib/Connector/Laravel5/ExceptionHandlerDecorator.php:103-106 | passes the output and the exception on to Laravel's handler exactly once, with no policy; the flag is untouched |
| `Laravel5.RenderPolicy` | src/Codeception/Lib/Connector/Laravel5/ExceptionHandlerDecorator.php:72-81 | an exception thrown by Laravel's handler propagates unchanged; for a response, the outcome is a throw iff the flag is set and the body is Symfony's fallback page, the thrown exception is exactly the one being rendered, and any returned response is the handler's own, unchanged |
| `Laravel5.IsSymfonyExceptionHandlerOutput` | src/Codeception/Lib/Connector/Laravel5/ExceptionHandlerDecorator.php:90-94 | the two `strpos(...) !== false` tests joined by `\|\|` are true iff the body contains the reset-content marker or the exception-summary marker at some index |
| `Substring.StrPos` | src/Codeception/Lib/Connector/Laravel5/ExceptionHandlerDecorator.php:92-93 | for a non-empty needle, as both call sites pass, `strpos` returns an index where the needle occurs, and no earlier index holds an occurrence; it returns `false` iff the needle occurs nowhere, so an occurrence at index 0 counts as found |
| `Substring.OccursInPlace` | src/Codeception/Lib/Connector/Laravel5/ExceptionHandlerDecorator.php:92-93 | a string put anywhere into a text, at its start included, occurs there and so is found by the search |
| `Substring.ContainsInContext` | src/Codeception/Lib/Connector/Laravel5/ExceptionHandlerDecorator.php:92-93 | the search is not anchored: text added before or after the content never hides an occurrence |
| `Substring.MismatchRulesOut` | src/Codeception/Lib/Connector/Laravel5/ExceptionHandlerDecorator.php:92-93 | the comparison is exact per character: a text of the needle's length that differs from it in one character does not contain it |
| `Substring.TooShortToContain` | src/Codeception/Lib/Connector/Laravel5/ExceptionHandlerDecorator.php:92-93 | a body shorter than a marker cannot contain it |
| `Laravel5.EnabledHandlingIsTransparent` | src/Codeception/Lib/Connector/Laravel5/ExceptionHandlerDecorator.php:74-81 | with the flag cleared, `render` ends exactly as Laravel's handler does, whatever the body |
| `Laravel5.UnmarkedResponseIsReturned` | src/Codeception/Lib/Connector/Laravel5/ExceptionHandlerDecorator.php:74-81 | a body containing neither marker is returned unchanged, whatever the flag |
| `Laravel5.SummaryPageRethrows` | src/Codeception/Lib/Connector/Laravel5/ExceptionHandlerDecorator.php:74-78 | with the flag set, any body holding the exception-summary marker, wherever it is, makes `render` throw the original exception |
| `Laravel5.ResetPageRethrows` | src/Codeception/Lib/Connector/Laravel5/ExceptionHandlerDecorator.php:74-78 | with the flag set, any body holding the reset-content marker, wherever it is, makes `render` throw the original exception |
| `Laravel5.RecognitionSurvivesWrapping` | src/Codeception/Lib/Connector/Laravel5/ExceptionHandlerDecorator.php:90-94 | a body recognised as Symfony's fallback page stays recognised when markup is added around it |
| `Laravel5.CustomPageIsReturned` | src/Codeception/Lib/Connector/Laravel5/ExceptionHandlerDecorator.php:74-81 | the page `<html>Custom 500 page</html>` is returned unchanged even with the flag set |
| `Laravel5.UpperCaseMarkupIsNotRecognised` | src/Codeception/Lib/Connector/Laravel5/ExceptionHandlerDecorator.php:90-94 | the markers are case-sensitive: the summary markup written in upper case is not Symfony's fallback page |
| `Laravel5.FallbackPageScenario` | src/Codeception/Lib/Connector/Laravel5/ExceptionHandlerDecorator.php:22-82 | for a handler that renders the exception-summary page, a fresh decorator's `shouldReport` answers true and `render` throws the exception back; after the flag is cleared `shouldReport` answers false and `render` returns the page; in both states `render` and `report` are passed on to Laravel's handler, in call order |
| `Laravel5.ShouldReportIgnoresHandler` | src/Codeception/Lib/Connector/Laravel5/ExceptionHandlerDecorator.php:59-62 | two decorators whose handlers differ only in their own `shouldReport` policy answer `shouldReport` alike, with the flag they were set to |

## Left out

- `__call` (src/Codeception/Lib/Connector/Laravel5/ExceptionHandlerDecorator.php:113-116) is not modelled: it forwards any other method by name through `call_user_func_array`, which is reflection over an open interface.
- What Laravel's handler does in `report`, `render` and `renderForConsole` is not modelled. Its `render` is an arbitrary function given with the handler. `report` and `renderForConsole` are modelled only as the call they pass on, recorded in the ghost field `forwarded`. An exception thrown inside them is not modelled.
- Symfony's `Response` is reduced to a status and a body string. `getContent()` can also return `false` (for streamed responses). PHP then searches an empty string, so nothing is found. The model does not represent that case.
- Laravel5.ExceptionHandlerDecorator.SetExceptionHandlingDisabled: takes a `bool`, the documented parameter type. The PHP setter stores any value. `render` tests its truthiness, and `shouldReport` (:61) returns it unconverted, so a non-boolean given to the setter comes back from `shouldReport` as that same value.
- Substring.StrPos: requires a non-empty needle. Both call sites pass non-empty literals. For an empty needle PHP 7's `strpos` warns and returns `false`, while PHP 8's returns 0; neither answer is modelled.
- The markers are taken as plain character sequences. PHP's `strpos` compares bytes; the markers are ASCII, so for them the two agree.
- PHP exception propagation through Laravel's dispatch layer is not modelled. A throw is the `Throw` outcome of `render`.
