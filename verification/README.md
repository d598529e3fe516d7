# Workflows form add-on: submission logic in Dafny

This project models the decision logic of the Workflows add-on for a hosted
form service. The add-on has four pieces of logic:

- **Trigger toggle** (`createSubmitTrigger`). It looks for the first trigger
  of the form that fires on submission. If there is none, it installs one that
  calls `respondToFormSubmit`. If there is one, it deletes it.
- **Webhook payload** (`respondToFormSubmit`). It posts one `{title, id}`
  record per form item, in item order.
- **Submission limiter** (`limitFormSubmissionByNumber`). It scans every
  answer of every response, in order. An answer to an item titled exactly
  "Form Submission Limit" overwrites the limit, which starts at 100. An answer
  to an item titled exactly "Email Address" overwrites the notification
  address, which starts as a fixed address. When the response count *equals*
  the limit, the form is closed. The owner is emailed only if daily email
  quota remains.
- **Respondent notification** (`sendRespondentNotification`). It repeats the
  address scan and emails the scanned address unless it is empty. The handler
  calls it only while quota remains.

Everything is a pure function over immutable values:

- the form is a record with its items, its responses and its accepting flag;
- a response is a sequence of (item, answer text) pairs;
- the trigger table is a sequence of (event type, handler name) pairs;
- quota is a natural number;
- a sent email is a value appended to an output list.

The form's lifecycle is a two-state machine, accepting and closed. Its only
transition is accepting to closed, taken when the count equals the limit.

The host runs the handler once per installed submit trigger bound to
`respondToFormSubmit`. Each collaborator owns their own trigger, and one
collaborator's toggle cannot remove another's. So a run of submissions
carries the number of installed triggers:

- with no trigger (for example after the sidebar was opened a second time),
  responses are recorded but the form is never closed;
- with one trigger, the owner is notified at most once;
- with k triggers, the handler runs k times on each submission. It never reads
  the accepting flag, so at the limit the owner is notified once per trigger
  while quota lasts (`Submission.DuplicateTriggersRepeatNotification`).

Modules:

- `FormModel` (form_model.dfy): items, item responses, responses, the form, and the
  constant labels and defaults.
- `ConfigScan` (config_scan.dfy): the limit/address scan as a left fold, the
  address-only scan, loop versions of both, and the last-match-wins lemmas.
- `JsNumber` (js_number.dfy): the part of JavaScript's `==` between a number and a
  text that the limit test relies on.
- `Triggers` (triggers.dfy): the trigger table and the toggle.
- `Webhook` (webhook.dfy): the payload mapping.
- `Submission` (submission.dfy): the limiter, the respondent notice, the
  submission handler, and runs of many submissions.

The code's trigger operation is a toggle, and the model keeps it that way.
Two calls starting with no submit trigger restore the table. No table is
left unchanged by a second call (`Triggers.ToggleNotIdempotent`), so the
operation is not an idempotent install. `showSidebar` calls it each time the
sidebar opens.

The limit keeps the raw value the script's `limit` variable holds: the number
100, or the text of the last matching answer. This makes last-match-wins
exact. Only the conversion inside `count == limit` is approximated (see
"Left out").

`sendRespondentNotification` receives the submitted response but never reads
it. Its recipient is the scanned address, the same one the owner email uses
(`ConfigScan.ScanAddressAgrees`). That is not necessarily the person who
submitted.

The code compares with equality, not `>=`, and the model keeps that. A form
whose count has already passed the limit is never closed by the limiter
(`Submission.RunClosesAtLimit`).

Each email sent uses one unit of quota. So when the owner email takes the
last unit, the respondent email of the same submission is skipped.

## Model

| member | source | states |
|---|---|---|
| `ConfigScan.Step` | Code.js:208-213 | Each field is decided by its own title test: an answer titled "Form Submission Limit" sets the limit to its text, one titled "Email Address" sets the address, and an answer with neither title changes nothing. |
| `ConfigScan.ScanConfig` | Code.js:201-215 | The scanned limit is the number 100 or the text of some "Form Submission Limit" answer of the history. The scanned address is the default one or the text of some "Email Address" answer. |
| `ConfigScan.ScanConfigLoop` | Code.js:201-215 | The nested loops over responses and their answers compute the left fold of the per-answer step, starting from limit 100 and the default address. |
| `ConfigScan.ScanAddressLoop` | Code.js:253-264 | The address-only nested loops compute the address fold, starting from the default address. |
| `ConfigScan.FoldKeepsAddress` | Code.js:212-213 | Within a response, answers none of which is titled "Email Address" keep the address. |
| `ConfigScan.FoldKeepsLimit` | Code.js:210-211 | Within a response, answers none of which is titled "Form Submission Limit" keep the limit. |
| `ConfigScan.FoldLastAddress` | Code.js:208-214 | Within a response, the last answer titled "Email Address" sets the address, whatever came before. |
| `ConfigScan.FoldLastLimit` | Code.js:208-214 | Within a response, the last answer titled "Form Submission Limit" sets the limit to its text, whatever came before. |
| `ConfigScan.FoldAnswersOrigin` | Code.js:208-214 | Within a response, the limit and the address the loop ends with are the ones it started with, or the text of one of the response's matching answers. |
| `ConfigScan.FoldIgnoresUnlabelled` | Code.js:210-213 | Inserting an unlabelled answer anywhere in a response does not change the fold's result. |
| `ConfigScan.FoldAddressAgrees` | Code.js:259-263 | Per response, the address-only loop and the address of the full loop agree. |
| `ConfigScan.FoldResponsesKeepsLimit` | Code.js:205-215 | Responses with no "Form Submission Limit" answer leave any starting limit unchanged. |
| `ConfigScan.FoldResponsesOrigin` | Code.js:205-215 | Over any responses, the limit and the address the loops end with are the starting ones, or the text of a matching answer in one of the responses. |
| `ConfigScan.FoldResponsesAppend` | Code.js:205-215 | Scanning a history in two parts, the second part starting from the first part's result, gives the scan of the whole history. |
| `ConfigScan.ScanKeepsLimit` | Code.js:201-215 | With no "Form Submission Limit" answer in any response, the limit is the number 100. |
| `ConfigScan.ScanKeepsAddress` | Code.js:202-215 | With no "Email Address" answer in any response, the address is the default one. |
| `ConfigScan.ScanDefaults` | Code.js:201-215 | With neither label answered anywhere, the scan yields limit 100 and the default address. |
| `ConfigScan.ScanAppendKeepsLimit` | Code.js:205-215 | Later responses with no limit answer keep the limit scanned from the earlier history. |
| `ConfigScan.ScanLastAddressWins` | Code.js:205-215 | The "Email Address" answer with no later match, in response order and then item order, determines the address; earlier matches are overwritten. |
| `ConfigScan.ScanLastLimitWins` | Code.js:205-215 | The "Form Submission Limit" answer with no later match, in response order and then item order, determines the limit. |
| `ConfigScan.ScanIgnoresUnlabelled` | Code.js:210-213 | Inserting an unlabelled answer into any response leaves the scanned limit and address unchanged. |
| `ConfigScan.ScanAddressAgrees` | Code.js:253-264 | The respondent scan's address equals the limiter scan's address for every response history. |
| `JsNumber.ToNumberShowDecimal` | Code.js:217 | The decimal text of n converts back to n when compared with the count. |
| `JsNumber.LeadingZeroIgnored` | Code.js:217 | Leading zeros in a limit answer do not change the number it is compared as. |
| `JsNumber.EmptyTextIsZero` | Code.js:217 | An empty limit answer compares equal to the count 0 and to no other count. |
| `JsNumber.LooseEqualsShowDecimal` | Code.js:217 | A count equals the decimal text of n if and only if the count is n. |
| `Triggers.FirstSubmit` | Code.js:140-146 | The result is the index of the first on-form-submit trigger, or none exactly when there is no such trigger. |
| `Triggers.Toggle` | Code.js:140-154 | With no submit trigger, the table gets `respondToFormSubmit`'s trigger appended. Otherwise the first submit trigger is deleted: the table shrinks by one, entries before it stay in place, and entries after it move up one. |
| `Triggers.FindExistingTrigger` | Code.js:140-146 | The search loop with its early break finds the first on-form-submit trigger, or none when there is none. |
| `Triggers.CreateSubmitTrigger` | Code.js:134-155 | The search-then-create-or-delete code computes the toggle of the trigger table. |
| `Triggers.ToggleInstallsWhenAbsent` | Code.js:147-151 | With no submit trigger, exactly one is appended, bound to `respondToFormSubmit`, and it is then the only one. |
| `Triggers.ToggleSubmitCount` | Code.js:140-154 | One call turns 0 submit triggers into 1, and n > 0 into n - 1. |
| `Triggers.ToggleKeepsOthers` | Code.js:140-154 | Triggers of every other event type are untouched, in content and order. |
| `Triggers.ToggleTwiceRestores` | Code.js:140-154 | Starting with no submit trigger, two calls leave the table as it started. |
| `Triggers.ToggleNotIdempotent` | Code.js:140-154 | For every table, a second call changes the table again: the operation is a toggle, not an idempotent install. |
| `Webhook.Payload` | Code.js:171-178 | There is exactly one record per item, and record k carries item k's title and id. |
| `Webhook.BuildPayload` | Code.js:171-178 | The push loop builds exactly the payload of the items. |
| `Webhook.PayloadRoundTrip` | Code.js:173-178 | The items can be read back from the payload, in order; nothing is lost. |
| `Submission.LimitReached` | Code.js:217 | The limit is reached exactly when it denotes the count: it is the count as a number, or a text that converts to the count. The count's decimal text always reaches it. |
| `Submission.LimitFormSubmissionByNumber` | Code.js:199-239 | The form ends up closed if and only if it was closed or the count equals the scanned limit. The owner email is sent if and only if that equality holds and quota is positive, and it goes to the scanned address. Closure does not depend on quota. The responses are unchanged. |
| `Submission.NumericLimitClosesOnlyAtEquality` | Code.js:217-238 | With a numeric limit n, an open form is closed exactly when the count is n. A count below or above n leaves it open. |
| `Submission.DefaultLimitClosesAtHundred` | Code.js:201-238 | With no limit answer, an open form is closed exactly at 100 responses. |
| `Submission.SendRespondentNotification` | Code.js:251-280 | A notice is produced if and only if the scanned address is non-empty, and it goes to that address. |
| `Submission.RespondToFormSubmit` | Code.js:165-193 | The payload is the item mapping, and closure happens exactly when the count equals the limit. At most one owner email is sent: exactly when the limit is reached and quota is positive. The respondent email is sent exactly when the address is non-empty and quota is left after the owner email. Every email goes to the scanned address, and each one uses one unit of quota. |
| `Submission.RunHandler` | Code.js:165-193 | One run of the handler leaves the form's title, items and responses alone. It closes the form exactly when it was open and at the limit. It adds one owner email exactly when at the limit with quota, and uses at most two units of quota. |
| `Submission.HandlerRuns` | Code.js:147-151 | The handler runs once per installed trigger on the same recorded submission. With no trigger the form stays as it was; with some it is closed exactly at the limit. At most one owner email per run is sent, none below the limit, and one per run at the limit when quota covers two emails per run. |
| `Submission.Submit` | Code.js:165-193 | A closed form refuses the submission and nothing changes. An open form records it, and it is closed exactly when a trigger is installed and the limit is reached. At most one owner email per trigger is sent, and none if the form stays open. The trigger count does not change. |
| `Submission.Run` | Code.js:237 | Over any run the trigger count stays the same and nothing reopens the form: only closing is ever done. |
| `Submission.DuplicateTriggersRepeatNotification` | Code.js:217-236 | A submission that reaches the limit, with k triggers installed and quota for two emails per run, notifies the owner exactly k times. |
| `Submission.ClosedIsTerminal` | Code.js:237 | Once the form is closed, no further submission changes the form, the emails or the quota; nothing sets the flag back. |
| `Submission.RunWhileOpen` | Code.js:217-238 | Over any run, a form still open at the end has recorded every submission and has sent no owner email. |
| `Submission.CreatorNotificationsPerTrigger` | Code.js:217-237 | Over any run of submissions, the owner is notified at most once per installed trigger, and never from a form that starts closed. |
| `Submission.AtMostOneCreatorNotification` | Code.js:217-237 | With at most one installed trigger, at most one owner email is sent over any run of submissions, and none when the form starts closed. |
| `Submission.RunClosesAtLimit` | Code.js:217 | If the limit is reached at exactly count n and no submission answers the limit again, then an open form with c responses is closed after the run if and only if a trigger is installed and c < n <= c + the number of submissions. A form already past n is never closed, and neither is a form with no trigger. |
| `Submission.DefaultLimitRun` | Code.js:201-217 | With no limit answer anywhere, a run closes the form if and only if a trigger is installed and the run passes through exactly 100 responses. |
| `Submission.AnsweredLimitRun` | Code.js:210-217 | With the limit answered as the decimal text of n and not answered again, a run closes the form if and only if a trigger is installed and the run passes through exactly n responses. |

## Left out

- `onOpen`, `onInstall`, `showSidebar`, `showAbout`, `getFormFields`: menu, dialog, logging, Drive folder and template-document code. All of it is host UI or file plumbing.
- `limitFormSubmissionByDateTime`: its body is empty.
- Email rendering and sending: HTML templates, `MailApp.sendEmail` and the sender name are not modelled. An email is recorded as a value holding its recipient, plus, for the owner email, its subject, response count and limit.
- The respondent email's subject and paragraphs: they come from the document properties store, which is not modelled. Neither is the failure when `responseText` is unset.
- The quota value: the host supplies it, and here it is a parameter. That each send uses one unit of it is the host's behaviour, assumed here.
- The webhook call: `UrlFetchApp.fetch` and `JSON.stringify` are not modelled. The handler is modelled as if the call returns. A failing call, which aborts the whole handler, is not modelled.
- Failure paths: uncaught host errors (authorization, mail failures) would end an invocation part-way. They are not modelled.
- Concurrency: two submission handlers racing on the count comparison is host-runtime behaviour and is not modelled.
- Host rules in `Submission.Submit`: the host refuses submissions while the form is closed, records each response before any handler runs, and runs the handler once per installed submit trigger. These are assumptions about the host.
- Submission.Run: the number of installed triggers is fixed for the whole run. A collaborator opening the sidebar between two submissions toggles their own trigger (`Triggers.ToggleSubmitCount`). Such a history is modelled as separate runs with different trigger counts. The count is a number, not derived from each collaborator's trigger table.
- Submission.HandlerRuns: the runs for one submission happen one after the other, each seeing the previous run's emails and quota. The host may run them concurrently; that is not modelled (see Concurrency above).
- Submission.AtMostOneCreatorNotification: holds only with at most one installed trigger. With k triggers the source can notify the owner up to k times for one submission; `Submission.CreatorNotificationsPerTrigger` states that bound and `Submission.DuplicateTriggersRepeatNotification` shows it is reached.
- Trigger identity: the host's unique trigger ids and its order of `getUserTriggers` are not modelled. A new trigger is appended at the end of the table.
- Answer types: a checkbox item's answer is an array of texts in the host. Every answer is modelled as one text.
- JsNumber.ToNumber: models only the empty text (0) and plain ASCII digit strings. JavaScript also trims whitespace and accepts signs, decimal points, exponents, hexadecimal, binary and octal prefixes, and "Infinity". Such limit answers are treated here as equal to no count. So `Submission.LimitReached` can report "not reached" where the script would close the form.

