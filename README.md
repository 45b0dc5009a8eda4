# FinAI advisor: keyword retrieval and streamed-answer assembly

This project models the two pieces of logic in `granite_generation.py`, the
command-line finance assistant:

- **Local retrieval** (`local_retrieval`). A fixed, ordered index maps five
  keywords to knowledge-base files: `upi`, `fraud`, `budget`, `card`,
  `interest`. The question is lower-cased. The first keyword in index order
  that occurs in it decides which file is read, and that read's result is
  returned. If nothing matches, the result is None.
- **Generation client** (`call_granite`). A falsy bearer token gives
  `"Failed to get IAM token."`. A failed POST or a non-200 status gives
  `"Error calling Granite."`. Otherwise the streamed lines are folded into a
  buffer. Empty lines and lines not starting with exactly `data: ` are skipped.
  The payload of each data line is decoded, and a non-empty
  `choices[0].delta.content` is appended. Any fault while streaming
  discards the buffer and gives the error sentinel. The result is the
  stripped buffer, or `"No answer generated."` when the buffer is empty.

The line format is a subset of the `data:` field of server-sent events,
section 9.2 of the WHATWG HTML Living Standard. Only the `data: ` form with
one space is recognised, and each line is decoded on its own (multi-line data
is not joined).

Files:
- `wrappers.dfy`: `Option`.
- `text.dfy`: Python's `str.lower` on every character whose lower case
  holds an ASCII letter, `str.startswith`, the `in` substring test, and
  `str.strip()` with Python's full `isspace` set.
- `retrieval.dfy`: the keyword index, `Scan` (the loop over the index, for any
  table), `LocalRetrieval`, and their lemmas.
- `generation.dfy`: the stream items, the fold (`Step`, `Fold`), its
  independent reading (`Fragments`, `Concat`, `HasFault`), `GraniteAnswer`,
  the imperative `CallGranite` proved equal to it, and the lemmas.

Inputs that stand for I/O:
- `read: string -> Option<string>` is opening and decoding the file at
  `"knowledge_base/" + name`. None means the read raised.
- `token: Option<string>` is what `get_iam_token` returned.
- `reply: Reply` is the completion request. It is either `PostFailed` (the
  POST raised) or the status and the items that `iter_lines` produced. Each
  item is a decoded line or `Broken`: a dropped connection or a line that is
  not valid UTF-8.
- `parse: string -> Chunk` is `json.loads` followed by the `.get` chain.
  `Malformed` means decoding or the chain raised, or that `content` is a
  truthy value that is not a string (a non-zero number, `true`, a non-empty
  list or object), so that `answer +=` raises. `NoChoices` means an empty
  `choices` list, so the `[0]` raised. `Delta(content)` holds the content
  when it is a non-empty string. It holds None when the content is falsy:
  absent, null, `""`, `0`, `false`, `[]` or `{}`, all of which
  `if content_piece` skips.

"No file is read" is stated as independence from `read`: the result is None
whatever `read` would return. In the same way, the token short-circuit is
stated as independence from the reply.

Behaviour of the code worth noting:
- A malformed payload, or an empty `choices` list, is fatal for the whole
  call. It is not skipped line by line (granite_generation.py:72-73, 78-80).
  So a terminating `data: [DONE]` line, which is not JSON, would make the call
  return `"Error calling Granite."`.
- A matched file that cannot be read is returned as None, the same as no match.
- `get_iam_token` runs outside the `try`. A failure inside it that raises, for
  example a missing `access_token` field, therefore escapes `call_granite`.
  It does not become a sentinel.

## Model

| member | source | states |
|---|---|---|
| Text.LowerChar | granite_generation.py:32 | one character's lower case is one character, or two for U+0130, and holds no ASCII capital |
| Text.Lower | granite_generation.py:32 | the lowered question holds no ASCII capital; it is at least as long as the question and at most twice as long, and exactly as long when there is no U+0130 |
| Text.LowerAppend | granite_generation.py:32 | lower-casing works character by character: the lower case of a concatenation is the concatenation of the lower cases |
| Text.LowerUnchanged | granite_generation.py:12-18 | text with no ASCII capital, U+0130 or U+212A is its own lower case |
| Text.LowerCharStable | granite_generation.py:32 | a lowered character lowers to itself |
| Text.LowerIdempotent | granite_generation.py:32 | lower-casing an already lower-cased question changes nothing |
| Text.StartsWithConcat | granite_generation.py:71 | text starts with whatever was put in front of it, so `"data: " + payload` is recognised as a data line |
| Text.StartsWithTrans | granite_generation.py:76 | a prefix of a prefix is a prefix |
| Text.Contains | granite_generation.py:34 | `keyword in question_lower` holds exactly when the keyword occurs at some position of the question (the empty keyword everywhere) |
| Text.ContainsInfix | granite_generation.py:34 | a keyword is found wherever it sits, at the start, middle or end |
| Text.LowerKeepsOccurrence | granite_generation.py:32-34 | a word found in the question is found, lower-cased, in the lower-cased question; this holds of the character-by-character lowering modelled here, not of Python's context-sensitive final sigma, which no ASCII keyword involves |
| Text.TrimStart | granite_generation.py:77 | the left strip is a suffix of the input, everything it dropped is whitespace, and it does not start with whitespace |
| Text.TrimEnd | granite_generation.py:77 | the right strip is a prefix of the input, everything it dropped is whitespace, and it does not end with whitespace |
| Text.Strip | granite_generation.py:77 | the stripped text is empty exactly when the input is all whitespace; otherwise it neither starts nor ends with whitespace |
| Text.StripPadded | granite_generation.py:77 | `strip()` removes exactly the surrounding whitespace: any text without whitespace at its ends, padded with whitespace, strips back to itself |
| Text.StripIdempotent | granite_generation.py:77 | stripping twice is stripping once |
| Retrieval.PathOfInjective | granite_generation.py:36 | different file names open different paths under `knowledge_base/` |
| Retrieval.KeywordFilesDistinct | granite_generation.py:12-18 | the five keywords of the index open five different files |
| Retrieval.Scan | granite_generation.py:33-41 | for any table, the result is the read of the file of the first entry, in table order, whose keyword occurs in the question; when no keyword occurs it is None whatever `read` returns, so no file is consulted |
| Retrieval.LocalRetrieval | granite_generation.py:31-41 | both outcomes of `local_retrieval`: when some keyword occurs in the lower-cased question, the read of the first such keyword's file; when none does, None whatever `read` returns |
| Retrieval.FirstMatchExists | granite_generation.py:33-34 | when a given keyword occurs, a first one in table order exists |
| Retrieval.SomeMatchHasFirst | granite_generation.py:33-34 | when any keyword occurs, a first one in table order exists |
| Retrieval.UnreadableFileStopsScan | granite_generation.py:35-40 | when the first matching keyword's file cannot be read, the result is None, even though a later keyword matches and its file is readable |
| Retrieval.KeywordsAreLower | granite_generation.py:12-18 | every keyword of the index is already lower case, so it can match the lower-cased question |
| Retrieval.KeywordAnywhere | granite_generation.py:31-37 | a keyword anywhere in the lower-cased question, with no earlier keyword of the index present, yields its own file from `knowledge_base/` |
| Retrieval.UpiWins | granite_generation.py:12-18 | `upi` is first in the index, so any question mentioning it reads `knowledge_base/upi_info.txt`, whatever else it mentions |
| Retrieval.CaseInsensitive | granite_generation.py:32 | a question and its lower-cased form are routed alike |
| Retrieval.AnyCaseMatches | granite_generation.py:32-34 | a keyword written in any letter case in the question (`UPI`, `Card`) matches |
| Retrieval.DottedCapitalI | granite_generation.py:32-37 | `"UP\u0130"` lowers to `"upi"` plus a combining dot, so it reads `knowledge_base/upi_info.txt` |
| Generation.Piece | granite_generation.py:71-76 | an item contributes at most one fragment, never an empty one, and only a data line whose payload holds that content does |
| Generation.Step | granite_generation.py:69-76 | one iteration raises exactly when the item is faulty (a broken line, or a data line whose payload is malformed or has empty `choices`); otherwise the buffer gains exactly the item's fragment at its end |
| Generation.Fold | granite_generation.py:68-76 | the loop only appends: when it finishes, what the buffer held at the start is still its prefix |
| Generation.Finish | granite_generation.py:77 | an empty buffer gives `"No answer generated."`; a non-empty buffer gives `""` exactly when it is all whitespace, and otherwise text with no whitespace at either end |
| Generation.FinishPadded | granite_generation.py:77 | a non-empty buffer finishes as its own text without the surrounding whitespace: any whitespace around a core with no whitespace at its ends gives that core |
| Generation.GraniteAnswer | granite_generation.py:43-80 | a falsy token gives `"Failed to get IAM token."` whatever the reply; a failed POST or a non-200 status gives `"Error calling Granite."` whatever the body; with status 200, a fault anywhere gives the error sentinel and discards gathered fragments, no fragments give `"No answer generated."`, and otherwise the answer is the stripped concatenation of the fragments |
| Generation.CallGranite | granite_generation.py:43-80 | the imperative body (checks, then the loop appending fragments) returns exactly `GraniteAnswer`, the fold-based reading of the same call |
| Generation.Fragments | granite_generation.py:75-76 | only non-empty content fragments are collected (`if content_piece`) |
| Generation.ConcatEmpty | granite_generation.py:76-77 | the joined fragments are empty exactly when there are no fragments |
| Generation.ConcatAppend | granite_generation.py:76 | joining two runs of fragments joins their joins |
| Generation.HasFaultCons | granite_generation.py:68-80 | a stream has a faulty item exactly when its first item does or the rest does |
| Generation.FoldCons | granite_generation.py:68-76 | an item that does not raise appends its fragment to the buffer before the rest of the loop |
| Generation.ConcatFragmentsCons | granite_generation.py:75-76 | the join of a stream's fragments is the first item's fragment followed by the join of the rest |
| Generation.FoldMeaning | granite_generation.py:67-80 | the loop raises exactly when some item is faulty; otherwise the buffer is the starting buffer followed by every non-empty fragment of the data lines, in arrival order |
| Generation.MarkerNeedsSpace | granite_generation.py:71 | a line starting with `data:` with no space after it is skipped |
| Generation.IgnoredLineKeepsBuffer | granite_generation.py:69-71 | a blank line or a line without the marker leaves the buffer unchanged |
| Generation.DataLineAppends | granite_generation.py:71-76 | a data line whose payload carries a non-empty fragment appends that fragment to the end of the buffer |
| Generation.HelloWorld | granite_generation.py:67-77 | two data lines whose payloads carry the fragments `"Hello"` and `" world"`, then a blank line, give `"Hello world"` |

## Left out

- `get_iam_token`'s HTTP exchange (granite_generation.py:20-29) is network I/O. Its result is the `token` input. A raise inside it, which would escape `call_granite`, is not modelled.
- The completion POST and its headers and payload (granite_generation.py:51-62) are network I/O. Its outcome is the `reply` input, and the question it sends plays no part in the model.
- `load_dotenv` and `os.getenv` (granite_generation.py:7-9) are environment access.
- File opening and UTF-8 decoding (granite_generation.py:36-37) are the `read` input. Line decoding (granite_generation.py:70) is folded into `Broken` items.
- `json.loads` and the `.get` chain (granite_generation.py:72-74) are a foreign library. They are the `parse` input, summarised by `Chunk`.
- The diagnostic `print` calls and the `__main__` console flow (granite_generation.py:28, 39, 64, 79, 82-95) are console I/O with no logic of their own.
- Text.Lower: lowers ASCII capitals, U+0130 (to `i` and U+0307) and U+212A (to `k`), and leaves every other character unchanged. Python's `str.lower` also lowers other non-ASCII letters, but always to non-ASCII text, so that text can never form one of the ASCII keywords. The routing is therefore the same, but the model's lowered question is not Python's character for character.
- Retrieval.PathOf: is `os.path.join` for relative file names only, which is what the index holds; for an absolute name `os.path.join` drops the folder, and the model does not.
- A read timeout, retries and cancellation do not exist in the code and are not modelled.
