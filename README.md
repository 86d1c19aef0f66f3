# Fair Whistle Shield: the demo component's activity-log mirror and view model

Fair Whistle Shield is a browser front end for an anonymous, encrypted
whistleblower contract. Its main React component, `WhistleBlowerDemo`, lets a
user connect a wallet, type a report and pick a severity, submit the report,
list reports and ask for each one to be decrypted. The encryption, the wallet,
the contract calls and the decryption-signature cache all sit in hooks outside
this model. The component itself holds two pieces of logic, and this project
models both:

* **The message mirror.** An effect watches the orchestrator's status
  `message`. An absent or empty message is ignored, and so is a message equal
  to the last one seen. Any other message is remembered and appended to the
  activity log as exactly one entry. The classification tests run in order:
  1. a case-sensitive "successfully" gives `report_submit`, and the form is
     reset to its initial content "" and severity 3;
  2. otherwise "failed" or "error" in any case gives `error`;
  3. otherwise "decrypt" in any case gives `decrypt`;
  4. otherwise the entry is `info`.

  A click on an enabled Submit button logs a `report_submit` entry with the
  details `severity=<n>` and then calls `submitReport` with the form's content
  and severity.
* **The view model.** Which screen is shown:
  * the connect screen without a wallet;
  * the not-deployed screen when the contract is known not to be deployed;
  * the main view otherwise.

  Which main-view panels each `mode` shows, when the Submit button is enabled,
  and when a report's Decrypt button is disabled and how it is labelled.

Modules:

* `Wrappers` holds `Option`, which stands for JavaScript's `undefined`.
* `Text` models `includes`, `toLowerCase` (ASCII letters), `trim` and the
  decimal rendering of an integer. Each comes with an independent reference
  definition that it is proved against:
  * substring occurrence for `includes`;
  * case-insensitive occurrence for `toLowerCase` followed by `includes`;
  * "surrounded by white space" for `trim`;
  * a parser for the decimal rendering.
* `ActivityLog` holds the log entries, the classifier and the log invariant.
* `ViewModel` holds the screen and button predicates.
* `WhistleBlowerDemo` holds the class `Demo` and the tools to reason about it:
  * `Demo` keeps the component's mutable state: the last message, the log, the
    content and the severity.
  * `OnMessage` is the effect, proved equal to the value-level specification
    `Mirror`.
  * `MirrorAll` runs `Mirror` over a whole sequence of messages and `Fresh`
    names the messages a run keeps; the lemmas about the effect are stated
    over these three functions.

The log invariant, `Consistent`, has three parts:
* every entry is either a click entry or the mirror entry of a non-empty
  message;
* the remembered message is the last message mirrored;
* no message is mirrored twice in a row.

This "never twice in a row" holds for mirrored messages only. Click entries
are told apart by their title "Submit Encrypted Report". Two enabled clicks at
the same severity do log two identical entries in a row
(`RepeatedClickScenario`). A click entry's details may also equal a later
status message. So the raw log can hold consecutive equal details. The
duplicate suppression in the code compares only against the last *message*.

Another edge case sits in the decrypt button. It is disabled as soon as a
report's decrypted content is defined, but its caption switches to
"Decrypted" only when that content is a non-empty string. A report whose
content decrypts to "" therefore shows a disabled button captioned "Decrypt"
(`EmptyDecryptionLabelledButDisabled`).

## Model

| member | source | states |
|---|---|---|
| `Text.Contains` | frontend/components/WhistleBlowerDemo.tsx:85 | `s.includes(t)` is true exactly when `t` occurs in `s` at some index |
| `Text.Lower` | frontend/components/WhistleBlowerDemo.tsx:89 | lower-casing keeps the length and lower-cases each character in place (ASCII capitals to small letters) |
| `Text.ContainsLowered` | frontend/components/WhistleBlowerDemo.tsx:89-91 | `m.toLowerCase().includes(w)` holds exactly when `w` matches some slice of `m` character by character after lower-casing |
| `Text.Trim` | frontend/components/WhistleBlowerDemo.tsx:242 | the trimmed string sits in the original with only white space on either side, neither starts nor ends with white space, and is empty exactly when the original is all white space |
| `Text.NatStringRoundTrip` | frontend/components/WhistleBlowerDemo.tsx:248 | the decimal digits of a non-negative integer read back as that integer |
| `Text.IntStringRoundTrip` | frontend/components/WhistleBlowerDemo.tsx:248 | the decimal rendering of any integer (minus sign for negatives) parses back to that integer |
| `ActivityLog.Classify` | frontend/components/WhistleBlowerDemo.tsx:85-94 | a message is `report_submit` iff it contains "successfully" (case-sensitive), even if it also contains "failed" or "error"; otherwise `error` iff it contains "failed" or "error" in any case; otherwise `decrypt` iff it contains "decrypt" in any case; otherwise `info`; exactly one class applies |
| `ActivityLog.Title` | frontend/components/WhistleBlowerDemo.tsx:86-94 | no mirror title equals the Submit-click title, so mirror entries and click entries are told apart |
| `ActivityLog.MirrorEntry` | frontend/components/WhistleBlowerDemo.tsx:86-94 | the entry for message `m` has details `m` and the kind `Classify(m)` |
| `ActivityLog.ClickEntry` | frontend/components/WhistleBlowerDemo.tsx:245-249 | the click entry is a `report_submit` entry with the click title and details starting "severity=" |
| `ActivityLog.ClickEntryRecordsSeverity` | frontend/components/WhistleBlowerDemo.tsx:248 | the severity can be read back from a click entry's details |
| `ActivityLog.AppendKeepsNoRepeats` | frontend/components/WhistleBlowerDemo.tsx:82-83 | logging a message different from the last mirrored one keeps mirrored messages free of adjacent repeats and makes it the last one |
| `WhistleBlowerDemo.MirrorSkips` | frontend/components/WhistleBlowerDemo.tsx:81-82 | the effect leaves the whole state unchanged iff the message is absent, empty or equal to the last one |
| `WhistleBlowerDemo.MirrorLogsNewMessage` | frontend/components/WhistleBlowerDemo.tsx:83-95 | any other message becomes the last message and appends exactly one entry, whose details are the message; content and severity are reset iff the message is `report_submit`, and untouched otherwise |
| `WhistleBlowerDemo.SuccessRestoresInitialForm` | frontend/components/WhistleBlowerDemo.tsx:85-88 | after a new "successfully" message the form equals its state on first render |
| `WhistleBlowerDemo.MirrorIdempotent` | frontend/components/WhistleBlowerDemo.tsx:82-83 | delivering the same message twice has the effect of delivering it once |
| `WhistleBlowerDemo.InitialConsistent` | frontend/components/WhistleBlowerDemo.tsx:40-44 | the first-render state (no last message, empty log, form "" and 3) satisfies the log invariant |
| `WhistleBlowerDemo.MirrorKeepsConsistent` | frontend/components/WhistleBlowerDemo.tsx:80-95 | one run of the effect preserves the log invariant |
| `WhistleBlowerDemo.MirrorAllKeepsConsistent` | frontend/components/WhistleBlowerDemo.tsx:80-96 | any sequence of messages preserves the log invariant, so no message is ever mirrored twice in a row |
| `WhistleBlowerDemo.MirrorAllAppends` | frontend/components/WhistleBlowerDemo.tsx:80-96 | a sequence of messages only appends to the log, one mirror entry per fresh message in order, and ends remembering the last fresh message |
| `WhistleBlowerDemo.Demo.constructor` | frontend/components/WhistleBlowerDemo.tsx:40-44 | the component starts with last message "", an empty log, content "" and severity 3 |
| `WhistleBlowerDemo.Demo.OnMessage` | frontend/components/WhistleBlowerDemo.tsx:80-96 | the effect updates the last message, the log and the form exactly as `Mirror` does, and keeps the log invariant |
| `WhistleBlowerDemo.Demo.EditContent` | frontend/components/WhistleBlowerDemo.tsx:200-202 | typing sets the content unless a submission is in flight (the text area is disabled then), and changes nothing else |
| `WhistleBlowerDemo.Demo.EditSeverity` | frontend/components/WhistleBlowerDemo.tsx:220-224 | the slider sets the severity unless a submission is in flight (the slider is disabled then), and changes nothing else |
| `WhistleBlowerDemo.Demo.ClickSubmit` | frontend/components/WhistleBlowerDemo.tsx:239-250 | a click calls `submitReport(content, severity)` iff the button is enabled; then it appends exactly one click entry for the severity; otherwise it leaves the log alone; the form and last message never change |
| `ViewModel.SelectScreen` | frontend/components/WhistleBlowerDemo.tsx:110-128 | the connect screen iff not connected; the not-deployed screen iff connected and deployment is known false; the main view iff connected and deployment is true or unknown; there the form shows iff the mode is not `decryptOnly`, and the reports list shows iff the mode is not `noReports`, with the activity log shown instead; an omitted mode shows both |
| `ViewModel.OmittedModeIsFull` | frontend/components/WhistleBlowerDemo.tsx:25 | omitting `mode` renders exactly what "full" renders, in every wallet and deployment state |
| `ViewModel.MainShowsSomething` | frontend/components/WhistleBlowerDemo.tsx:181-276 | in every mode the main view shows the submit form or the reports list |
| `ViewModel.SubmitDisabled` | frontend/components/WhistleBlowerDemo.tsx:239-243 | Submit is enabled iff the orchestrator can submit, nothing is being submitted, and the content has a non-white-space character |
| `ViewModel.DecryptedCaptionRequestsNothing` | frontend/components/WhistleBlowerDemo.tsx:349-360 | a click on a button captioned "Decrypted" issues no decryption request |
| `ViewModel.DecryptedReportRequestsNothing` | frontend/components/WhistleBlowerDemo.tsx:349-353 | once any decrypted content (even "") is merged into a report, its button never requests decryption again, in flight or not |
| `ViewModel.InFlightBlocksEveryReport` | frontend/components/WhistleBlowerDemo.tsx:349-353 | while a decryption is in flight no report's button in the list issues a request |
| `ViewModel.RequestIsForOwnUndecryptedReport` | frontend/components/WhistleBlowerDemo.tsx:349-353 | every request a report's button issues is for that report's own id, for a report with no decrypted content, while nothing is in flight |
| `ViewModel.DecryptedLabelMeansDisabled` | frontend/components/WhistleBlowerDemo.tsx:350-360 | a button captioned "Decrypted" is always disabled |
| `ViewModel.EmptyDecryptionLabelledButDisabled` | frontend/components/WhistleBlowerDemo.tsx:350-360 | a report decrypted to "" shows a disabled button captioned "Decrypt" |

## Left out

- The orchestrator hook `useWhistleBlower` is not part of this model. It holds submit, refresh, decrypt, status update and the decryption-signature cache. Its flags and `message` are inputs here, and `submitReport`/`decryptReport` calls are returned as values.
- The FHE instance hook, the wallet hook, the in-memory storage hook, `useActivityLog` and `ActivityLogPanel` are not part of this model. `addLog` is modelled as appending to a sequence that starts empty, and that only this component appends to.
- The not-deployed screen's content (`errorNotDeployed`) is not part of this model.
- The JSX markup, CSS class strings, icons and the status alert are presentation.
- The Refresh button (disabled while refreshing) only forwards to the hook.
- Timestamps are rendered with the locale's date formatting, which is library behaviour.
- The severity slider's 1..5 range is enforced by the browser, not by code, so severity is an unbounded integer here. The string-to-number conversion of the slider value is not modelled; `EditSeverity` takes the number.
- React schedules the effect after a render; `OnMessage` is one synchronous step. The effect re-running on a new `addLog` identity with the same message is covered, because the repeat test drops it.
- Text.Lower: lower-cases ASCII letters only and keeps the length, because full Unicode case mapping is outside the model; as a model of `toLowerCase` in general it misses non-ASCII letters and the length changes some mappings cause. The classifier is not affected: the only non-ASCII characters that lower-case to ASCII letters are U+0130 (to "i" and a combining dot) and U+212A (to "k"), and neither can complete "failed", "error" or "decrypt".
- Text.Trim: the white-space set is fixed to the ECMA-262 WhiteSpace and LineTerminator code points as of current Unicode, because a future Unicode version could add space separators.
- Text.IntString: matches `${n}` only for integers of magnitude at most 2^53, which the 1..5 slider stays inside. Beyond that JavaScript prints the shortest round-trip digits padded with zeros, and from 10^21 on an exponent form ("1e+21"). Non-integral and non-finite severities are not modelled either.
- `frontend/app/layout.tsx` (static metadata and navigation) and `deploy/deployWhistleBlower.ts` (a deployment-tool call) hold no logic of the component.
