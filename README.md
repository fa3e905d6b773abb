# Tax-donation chat: a Dafny model

The system is a single Streamlit script, `chat.py`. A user logs in with the
configured username and password. They pick a country of residence and a
country they donate to, and the script composes a fixed question from the
two names. Pressing **Ask** sends the question to a chat-completion
provider. The reply is typed out word by word into a placeholder. The
`processing` flag is read when the Ask button is drawn, and the run that
asks raises it and lowers it again before it ends. So the flag disables the
button only on a later run that starts with it still up. That happens
after an ask whose fault escaped, or one whose run Streamlit stopped
partway (not modelled, see "Left out"); from then on the button stays
disabled.

The model has five modules:

- `Text`: Python's `str.isspace`, `str.strip()`, `str.split()` and
  `" ".join`, over `seq<char>`. Whitespace is written out by code point.
- `Typing`: `display_typing_effect`, as a method with a loop. It writes into
  a `Placeholder` class that records every text it is given, in order. The
  method is proved against `Frames(text)`, the cumulative word prefixes.
- `Prompt`: the question template, the two default picks (entries 0 and 1
  of the country list) and the startup guard on the list.
- `Response`: `get_ai_response`. The provider's outcome is an input, and
  the function turns it into the returned text or an escaping exception.
- `Chat`: the login check and a `Session` class with the `authenticated`
  and `processing` flags. A ghost log of the ask steps carries the
  single-flight invariant. An ask whose exception is not caught leaves
  `processing` set.

## Model

| member | source | states |
|---|---|---|
| Text.SplitJoin | chat.py:48 | splitting words joined by single spaces gives the words back |
| Text.SplitEmptyIffBlank | chat.py:48 | `split()` yields no words exactly when the text is all whitespace |
| Text.SplitStrip | chat.py:40 | stripping a text first does not change its words |
| Text.StripTrailingSpace | chat.py:52-53 | stripping a trimmed non-empty text plus one space gives the text back |
| Typing.DisplayTypingEffect | chat.py:46-54 | the placeholder receives exactly `Frames(text)`, in order, one frame per word |
| Typing.CumulativeAt | chat.py:51-53 | frame i is exactly the first i + 1 words joined by single spaces |
| Typing.FrameCount | chat.py:48-53 | there are as many frames as words, and none exactly when the text is blank |
| Typing.FramesGrow | chat.py:51-53 | each frame is the previous frame, a space and the next word, so it extends the previous one |
| Typing.LastFrame | chat.py:51-53 | the last frame is all the words joined by single spaces |
| Typing.FramesTrimmed | chat.py:53 | every frame is non-empty and has no whitespace at either end |
| Typing.FramesExample | chat.py:46-53 | typing "a b c" shows "a", "a b", "a b c"; typing "" shows nothing |
| Prompt.QuestionLayout | chat.py:94 | the question is the fixed template with the two names in their slots, and has the length that implies |
| Prompt.QuestionMentionsBoth | chat.py:94 | both picked names occur in the question |
| Prompt.DefaultSelection | chat.py:88-91 | the default picks exist exactly when the list has two entries, and are entries 0 and 1 |
| Prompt.GuardAdmitsSingleCountry | chat.py:24-26 | a one-country list passes the guard as written, which only rejects the empty list, but has no default destination |
| Prompt.ListGuard | chat.py:24-26 | the corrected guard passes exactly when both default picks exist, and implies the guard as written |
| Prompt.DefaultQuestionExample | chat.py:88-94 | on Afghanistan, Albania, Algeria the defaults are the first two, and their question is exactly "I live in Afghanistan and I am donating money to Albania, would I get a tax break?" |
| Response.GetAiResponse | chat.py:28-44 | only the rate-limit and invalid-request errors are caught; an answer comes back as its content minus the leading and trailing whitespace, and has none at either end; the rate limit gives its fixed message; an invalid request gives its prefix and then the error text; any other fault escapes |
| Chat.Session.constructor | chat.py:57-58 | a new session is logged out and idle (`processing` absent reads as false) with an empty ask log, and satisfies the session invariant |
| Chat.Session.SubmitLogin | chat.py:60-77 | success exactly when both fields equal the configured ones; success sets `authenticated` and nothing clears it |
| Chat.Session.PressAsk | chat.py:100-110 | a press while `processing` does nothing and changes nothing; an enabled press runs the ask: an escaping fault gives `Crashed` with the flag left up and the request logged, a returned text gives `Shown(Frames(text))` with the flag down and the four ask steps logged |
| Chat.Session.Ask | chat.py:100-110 | the flag goes up before the request; a returned text is typed out and the flag comes down; an escaping fault leaves the flag up; the session invariant is kept |
| Chat.SingleFlight | chat.py:100-110 | in every prefix of the session's ask log at most one request is open, and one is open exactly when an ask is unfinished |
| Chat.SessionSingleFlight | chat.py:100-110 | in a valid session `processing` is up exactly when one request is open in its ask log, and no prefix of that log has more than one open |
| Chat.ShowTyped | chat.py:106-108 | typing into a fresh placeholder shows exactly `Frames(answer)` |
| Chat.AnswerFrames | chat.py:40 | typing a stripped answer shows the cumulative words of the raw content |
| Chat.RateLimitFrames | chat.py:42 | the rate-limit message is typed in seven frames, the last being the message itself |
| Chat.InvalidRequestSplit | chat.py:44 | the invalid-request text splits into "Invalid", "request:" and then the detail's words |
| Chat.LoginExample | chat.py:72-77 | a wrong password and a username differing only in case are refused and leave the session logged out; the configured pair logs it in |
| Chat.RateLimitAskExample | chat.py:100-110 | after login, an ask that hits the rate limit shows seven frames ending in the fixed message of line 42 and releases the button |
| Chat.FaultAskExample | chat.py:100 | after an ask whose fault escaped, the flag stays up and the next press returns `Disabled` |
| Chat.InvalidRequestFrames | chat.py:44 | the invalid-request text is typed in two frames more than the detail has words, and its second frame is "Invalid request:" |

## Left out

- The Streamlit page itself is not modelled: titles, `st.write`, `st.success`, `st.error`, the spinner, the form widgets, and the Markdown rendering that `placeholder.markdown` applies to each frame. Frames are recorded as the plain text passed in. Login and Ask are modelled as method calls with the submitted values as arguments.
- The chat-completion request is not modelled: its model name, messages, `max_tokens` and `temperature`. Its outcome is a parameter of `GetAiResponse` and `Session.Ask`.
- The delay of `time.sleep(0.05)` between frames is not modelled, since it only affects timing.
- Reading the API key and credentials from secrets, and `st.stop()` when they are missing, are not modelled. The credentials are a constructor argument of `Session`.
- `countries_for_language('en')` is not modelled: the country list is a constructor argument.
- Streamlit re-runs the whole script on each interaction and keeps only `st.session_state`. The `Session` object stands for that state across re-runs.
- The widgets can only offer entries of the list, so `PressAsk` requires both names to be in it.
- Chat.Session: the constructor requires the corrected guard, a list of at least two countries. With the guard as written a one-country list gets past startup; login still works on it, but after login every run of the page fails at the destination picker, before the Ask button exists. The session model covers only lists on which the page can be drawn, so that failing page is not modelled; `Prompt.GuardAdmitsSingleCountry` records the gap.
- Chat.Authenticate: has no contract of its own, because its body is the equality test. `Session.SubmitLogin` states it.
- A run that Streamlit stops partway through an ask, for example because the user interacts with the page meanwhile, would also leave `processing` up. That case is not modelled; only an escaping fault leaves the flag up here.
- The provider's content is modelled as a string. A missing field or an empty choice list is not distinguished from any other fault.

## Findings

| source | as written | input that shows it | evidently intended | confidence | as-written member | corrected member |
|---|---|---|---|---|---|---|
| chat.py:24-26 | the startup guard stops the script only when the country list is empty | a one-entry list such as ["Afghanistan"] passes the guard, but the destination picker starts at index 1, which the list does not have, so the picker fails | stop unless the list has at least two entries, so that both default picks exist | not executed | Prompt.GuardAdmitsSingleCountry | Prompt.ListGuard |
