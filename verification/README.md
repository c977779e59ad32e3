# Travel Recommender System chat page, modelled in Dafny

The repository is a single Streamlit page, `chat.py`. It keeps a conversation in the browser session and sends it to a hosted language model. It then cleans the model's reply and stores it. This project models the three parts of that page that carry logic:

- **The reply cleaner** (`Sanitizer.Clean`). It applies six literal `str.replace` calls in a fixed order, then `str.strip()`:
  - four boilerplate labels are deleted;
  - every code fence becomes one space;
  - an echoed prompt sentence is deleted.
- **The request builder** (`Chat.GetResponse`). It builds the message list for the model: the persona prompt as a system message, then a copy of every stored turn, in order. It turns the model's outcome into the reply text:
  - on success, the first choice's content, stripped;
  - on any exception, `"An error occurred: "` followed by the exception text.
- **The session** (`Chat.Session`). The conversation starts with a fixed greeting from the assistant. Each non-empty submission appends the user's text verbatim. The conversation, including that new turn, is then sent to the model, and the cleaned reply is appended as an assistant turn.

The Python string operations the cleaner relies on are modelled in `PyStr` with Python's semantics:

- `ReplaceAll` makes one left-to-right pass, with non-overlapping matches and Python's behaviour for an empty pattern.
- `Strip` removes the characters `str.isspace` accepts.
- `ReplaceAll` is proved equal to an independent definition: split on the pattern, then join with the replacement (`ReplaceIsSplitJoin`).
- `Join` is the definition of `sep.join`. `Find` is proved to return the leftmost occurrence (`FindSpec`). `Split` is proved to return pieces free of the separator that join back to the input (`SplitPartsFree`, `SplitJoin`).

The language model call is not modelled. Its result is an `Outcome` parameter: either `Completion(content)` or `Failure(message)`.

Files:
- `wrappers.dfy`: module `Wrappers`, the `Option` type.
- `pystr.dfy`: module `PyStr`, the Python string operations.
- `sanitizer.dfy`: module `Sanitizer`, the reply cleaner and worked examples of it.
- `chat.dfy`: module `Chat`, the turns, the request builder and the session.

Four behaviours follow from the code as written and are easy to miss:

- **Blank input is stored.** The input guard rejects only a missing value and the empty string. Input made only of blanks is stored as a user turn and sent.
- **Cleaning twice can change the result.** The cleaner is not idempotent, because deleting one label can splice a new label together out of the text around it. `"AI respAI response:onse:"` cleans to `"AI response:"`, and cleaning that gives `""` (`Sanitizer.CleanNotIdempotent`).
- **Deleting a label keeps the blanks around it.** `"```Sure! AI response: Visit the Louvre.```"` cleans to `"Sure!  Visit the Louvre."`, with two spaces between the sentences, not one (`Sanitizer.CleanKeepsSpacesAroundLabel`).
- **Success replies are stripped twice.** A successful reply is stripped once by the request builder and again by the cleaner.

## Model

| member | source | states |
|---|---|---|
| PyStr.ReplaceAbsent | chat.py:140-145 | `str.replace` leaves a string in which the pattern does not occur unchanged |
| PyStr.ReplaceSelf | chat.py:140-145 | replacing a pattern by itself leaves any string unchanged |
| PyStr.ReplaceAtFirst | chat.py:140-145 | `str.replace` copies the text before the first occurrence, emits the replacement once, and continues only after the occurrence |
| PyStr.ReplaceIsSplitJoin | chat.py:140-145 | for a non-empty pattern, `s.replace(pat, rep)` equals `rep.join(s.split(pat))` |
| PyStr.Strip | chat.py:146 | `str.strip()` yields a contiguous piece of the input with no whitespace at either end, and only whitespace is removed around it |
| PyStr.StripUnique | chat.py:146 | any split of a string into whitespace, a trimmed middle and whitespace has that middle as the strip result |
| PyStr.StripTrimmed | chat.py:146 | a string without surrounding whitespace is its own strip |
| PyStr.StripIdempotent | chat.py:146 | stripping twice is the same as stripping once |
| Sanitizer.Clean | chat.py:140-146 | the cleaned reply never starts or ends with whitespace |
| Sanitizer.CleanLeavesPlainReply | chat.py:140-146 | a trimmed reply holding none of the six fragments is returned unchanged |
| Sanitizer.CleanFences | chat.py:144-146 | each code fence becomes one space before the strip: "```Hi```" cleans to "Hi" |
| Sanitizer.CleanNotIdempotent | chat.py:140-146 | deleting a label can splice a new one: "AI respAI response:onse:" cleans to "AI response:", which cleans to "" |
| Sanitizer.CleanKeepsSpacesAroundLabel | chat.py:140-146 | the label in "```Sure! AI response: Visit the Louvre.```" is deleted with the blanks on both sides kept, so the reply cleans to "Sure!  Visit the Louvre." with two spaces |
| Sanitizer.CleanTimeoutError | chat.py:140-146 | the error reply "An error occurred: timeout" passes through the cleaner unchanged |
| Chat.GetResponse | chat.py:84-110 | the request is the system persona message followed by every history turn in order, so it has one more element than the history. The reply is the stripped completion on success, or "An error occurred: " followed by the exception text on failure |
| Chat.ExchangeKeepsWellFormed | chat.py:130-151 | appending a user turn and then an assistant turn keeps a conversation well formed (the greeting, then user and assistant turns alternating) |
| Chat.Displayed | chat.py:120-126 | a turn is drawn exactly when it is in the conversation and is a user or assistant turn, and nothing more is drawn than the conversation holds |
| Chat.DisplayedAppend | chat.py:120-126 | drawing proceeds in conversation order: drawing two stretches of a conversation one after the other draws the first stretch's turns, then the second's |
| Chat.WellFormedDisplayed | chat.py:120-126 | every turn of a well-formed conversation is drawn |
| Chat.Session.constructor | chat.py:113-117 | a new session holds exactly the assistant greeting "Hello, I am Travel Recommender System. How can I help you?" |
| Chat.Session.Submit | chat.py:128-151 | no input or "" sends nothing and changes nothing. Any other text, blanks included, sends the persona, the old history and the new user turn. It appends the verbatim user turn and the cleaned reply (of the stripped completion, or of the error text), the reply stored is trimmed, and a well-formed conversation stays well formed |
| Chat.TimeoutConversation | chat.py:128-151 | a first message whose model call times out leaves the greeting, the message and "An error occurred: timeout" in the session |

## Left out

- The page layout, subheader, chat bubbles and chat input widget (chat.py:11-42, 119-129, 133-134, 148-149) are user interface. Only the choice of which turns are drawn is modelled, by `Chat.Displayed`.
- The Lottie animation fetch over HTTP (chat.py:14-18, 41-42) is network I/O and purely cosmetic.
- Loading `.env` and the OpenAI configuration globals (chat.py:44-57) are process configuration.
- Chat.Session.Submit: the call to the hosted model (chat.py:97-104) is a foreign network call. Its parameters include a floating-point temperature and a 500-token limit. It is replaced by the `Outcome` parameter, so the model does not say how the answer depends on the request sent.
- Chat.GetResponse: any exception raised while reading the first choice of the response is also covered by `Failure`. How an exception is turned into its message text (`str(e)`) is not modelled; the message is given.
- Chat.Session.Submit: a submission is one atomic step. In the page, the user turn is appended at chat.py:131 and the reply only at chat.py:151, with Streamlit calls in between (chat.py:133-134, 148-149). A Streamlit rerun can stop the script at those calls, for example when a new message is submitted while the model call is pending. That leaves a user turn with no reply, and later conversations no longer alternate. The model does not capture this. Its "exactly two turns are added" and "a well-formed conversation stays well formed" hold only for submissions that run to the end.
- Strings are sequences of Dafny `char`s, which cannot hold a lone surrogate code point; a Python `str` can (one decoded from JSON, for example). Such replies are not modelled. The whitespace set of `PyStr.IsSpace` is the fixed list of characters Python's `str.isspace` accepts.
- The persona prompt (chat.py:60-80) is an opaque constant string; its wording plays no part in any property.
- Streamlit re-running the whole script on every interaction, and keeping one `chat_history` per browser session, is modelled as one `Session` object per browser session.
