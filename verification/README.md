# Jadwa feasibility-study page: section splitter, key guard and prompt

This project models the small pure core of `app.py`, the Streamlit page that
writes a feasibility study for a project idea. When the button is pressed,
the page does three things:

- it checks the API key: an empty key, or one that still holds the placeholder
  marker `ضع_مفتاح`, stops the run with an error before any client is built;
- it builds an Arabic prompt with the project idea, the city and the capital
  amount, telling the model to separate its sections with `'###'`;
- it splits the model's reply with Python's `txt.split("###")`. The first three
  segments become the overview, financial and plan tabs, and a missing segment
  leaves its tab empty.

The project has three modules:

- `PyStr` (`pystr.dfy`) models the Python `str` operations involved. These are
  `sep in s`, `str.find`, and `str.split(sep)`, which matches left to right
  without overlap and always gives at least one segment. Its partners are
  `sep.join(parts)` and the scanning count that `str.count` performs.
- `PyDecimal` (`pydecimal.dfy`) models `str(n)` on an `int`, which is how the
  f-string renders the capital amount. Its partner is `int(s)`, which reads the
  literal back.
- `App` (`app.dfy`) holds the page's own logic: the tabs (`Sections`), the
  split into tabs, the key guard, the prompt, and one press of the button
  (`Submit`). The hosted model is passed in as a function that may fail.

## Model

| member | source | states |
|---|---|---|
| `PyStr.Find` | app.py:144 | Where the split cuts. When it finds a match, `sep` occurs there and at no earlier index. It finds nothing exactly when `sep` does not occur in `s`. |
| `PyStr.Split` | app.py:144 | `txt.split("###")` always has at least one segment, and no segment contains the separator. |
| `PyStr.JoinSplit` | app.py:144 | Joining the segments with the separator gives back the text exactly. |
| `PyStr.SplitIsShaped` | app.py:144 | Every split has the same shape. Each segment but the last, followed by the separator, first matches exactly where the separator was appended. The last segment holds no match. |
| `PyStr.SplitJoin` | app.py:144 | Splitting a joined, split-shaped list gives back the same list. With `JoinSplit` and `SplitIsShaped`, the split is the only split-shaped list that joins to the text. |
| `PyStr.SplitLength` | app.py:144-145 | There is one more segment than there are non-overlapping occurrences counted left to right. So `parts[0]` always exists and the `else txt` branch at line 145 is never taken. |
| `PyStr.CountZeroIffAbsent` | app.py:144 | The left-to-right count is zero exactly when the separator does not occur. |
| `PyStr.SplitOverlapExample` | app.py:144 | Matches do not overlap: `"####"` splits into `""` and `"#"`. |
| `PyStr.JoinPrefix` | app.py:144-147 | Joining the first k segments gives a prefix of joining all of them, so keeping only the leading segments drops text only at the end. |
| `PyDecimal.NatToString` | app.py:136 | `{capital}` for a non-negative amount is at least one decimal digit, with no leading zero unless the amount is 0. |
| `PyDecimal.IntToString` | app.py:136 | `str(capital)` is non-empty and starts with `-` exactly when the amount is negative. |
| `PyDecimal.IntToStringRoundTrip` | app.py:136 | Reading the rendered amount back with `int` gives the amount. |
| `PyDecimal.IntToStringInjective` | app.py:136 | Different amounts never render the same way in the prompt. |
| `App.SplitSections` | app.py:144-147 | The overview, financial and plan tabs never contain `###`. |
| `App.SectionsWithoutSentinel` | app.py:144-147 | A reply gives the tabs (reply, "", "") exactly when it contains no `###`. |
| `App.OverviewBeforeFirstSentinel` | app.py:145 | The overview is a prefix of the reply and is followed by the first `###`, with no `###` starting inside it. When there is no `###`, the overview is the whole reply. |
| `App.MissingSectionsAreEmpty` | app.py:146-147 | The financial tab is empty when the reply has no `###`. The plan tab is empty when it has fewer than two. |
| `App.SectionsArePrefix` | app.py:144-147 | With two or more `###`, overview + `###` + financial + `###` + plan is a prefix of the reply. It is the whole reply when there are exactly two. With one `###`, overview + `###` + financial is the whole reply. |
| `App.KeyUsable` | app.py:122 | A key is usable exactly when it is non-empty and the marker `ضع_مفتاح` occurs nowhere in it. |
| `App.RejectedKeyHoldsMarker` | app.py:122 | A non-empty key that is rejected equals some text, then the marker, then some text. With `MarkerAnywhereRejected`, the non-empty keys that are rejected are exactly those with the marker inside them. |
| `App.MarkerAnywhereRejected` | app.py:122 | A key is rejected whatever text surrounds the marker. |
| `App.FallbackKeyNeverCalls` | app.py:116-123 | The key used when the secret store has none is rejected, so pressing the button with it never reaches the model. |
| `App.BuildPrompt` | app.py:135-139 | The prompt starts with its fixed opening followed directly by the project idea. It ends with the instruction to separate sections with `'###'`, then the list of the three sections. |
| `App.PromptMentionsInputs` | app.py:135-139 | The project idea, the city, the rendered capital and the quoted `'###'` all occur in the prompt as literal substrings. |
| `App.SeparatorInstructionNamesSentinel` | app.py:137 | The instruction quotes the same sentinel that the reply is later split on. |
| `App.Submit` | app.py:121-147 | Nothing happens until the button is pressed. A pressed button with an unusable key gives the missing-key error, with no model call. Otherwise one call goes to `gemini-2.5-flash` with the usable key and the built prompt. The run fails exactly when that call yields no text. Otherwise the tabs are the split of its reply. |

## Left out

- Page configuration, CSS, layout, inputs, tabs, success and error messages (app.py:13-109, 149-162) are UI rendering. The missing-key error becomes the `MissingKey` outcome, without its text.
- The Lottie animation fetch (app.py:15-23, 126-129) is HTTP I/O.
- The secret-store lookup (app.py:116-119) is configuration I/O. The key is a parameter of `Submit`, and only its fallback value appears, as `FallbackKey`.
- The key is modelled as a string. A secret of another type would make `not GEMINI_KEY` and `in` behave differently; that case is not modelled.
- The generation call (app.py:132, 140-141) is a foreign call. It is the `generate` parameter. A raise while building the client or generating, or a reply with no text for `split` at line 144, is `generate` returning None. This gives the `Failed` outcome, which stands for the error at lines 173-174.
- App.Submit: the error message text is not kept. A raise after the split, during the Word export (app.py:165-171), is not modelled: by then the tabs are already shown and the error follows.
- The chart data (`capital*0.1`, `*0.4`, `*0.8`) and the pandas DataFrame (app.py:158-159) are floating point and library code.
- The Word export (app.py:165-171) is a document library and I/O. The whole reply is kept in `Outcome.Study.reply`, which is what the export receives.
- The capital amount is an `int`, as `st.number_input` returns for integer `value` and `step` (app.py:104). Float rendering is not modelled.
- `PyStr.Split` requires a non-empty separator. Python raises `ValueError` on an empty one, but the page only ever splits on `"###"`.
- The form's "additional details" field (app.py:105) is read but never put into the prompt. The prompt does not contain the details, and it has no instruction about code fences.
- app.py has no retry, fallback model, JSON parsing, two-level split, lead log or admin view; none is modelled.
