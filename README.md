# Submission limit for contact forms — a Dafny model

This project models the frontend of a contact-form extension that limits how
often a form may be submitted, either in total (`formsubmit`) or per logged-in
user (`userformsubmit`), and that rejects an email address already stored for
the form. The four handlers of the `Frontend` class are modelled over a store
of WordPress data:

- the counter tag (`custom_counter_tag_handler`): parses the tag name
  `<anything>:<form id>`, computes the remaining count and, on the per-user
  path with a user logged in, issues a login token binding the form to that
  user (`Frontend.Store.RenderCounterTag`);
- the validation (`submission_limit_validation`): the duplicate-email check,
  then the enable flag, then the login flag, the token, the account and the
  per-user counter, or the per-form counter (`Frontend.Store.Validate`);
- the feedback (`process_feedback_response`): the text stored under the
  response key `submission_limit` (`Frontend.Store.Feedback`);
- the counter update (`submission_counter_process`): the only handler that
  changes a counter (`Frontend.Store.CountSubmission`).

The store (`Frontend.Store`) is a class whose fields are maps: the limit
settings per form, the per-form counter, the per-(user, form) counter, the
login tokens per (form, user), the set of user accounts and the rows of the
form-data storage plugin. WordPress reads the post metadata of an id through
`absint`, and reads nothing (the value `false`) for an id that is not numeric
or whose `absint` is 0; an unset counter reads as 0. The lookups `Config` and
`FormCount` take the absolute value of the id and give the unset settings
(limit disabled) and 0 for id 0. The posted form id is PHP's integer cast of
`_wpcf7`, which may be negative: the settings and the per-form counter are
then those of its absolute value, while the duplicate lookup, the field name
`formid:<id>`, the token and the per-user counter use the signed id or its
signed text (`FrontendProperties.NegativeFormId`). The per-user counter and
the token are keyed by the form id as TEXT, because the handlers interpolate
it into the metadata and transient names: the tag handler uses the raw text
after the colon, while the validation, the feedback and the counter update
use the rendering of the integer id. A tag written `counter:07` therefore
reads the settings of form 7 but issues its token under `07`, which the
validation of form 7 never reads (`FrontendProperties.LeadingZeroTagName`).
A tag whose form text is empty, not an integer, or 0 reads no settings at all
(`FrontendProperties.UnreadableFormTexts`): its limit type is `false`, which
is neither of the two known types, so the tag is handed to the extension hook
with no limit type and issues no token.

The limit type is kept as the stored text ("" when never set). The tag, the
validation and the feedback read "" as `formsubmit`; the counter update
compares the stored text as it is, so it counts nothing for a form without a
stored limit type (see Findings). The request context is explicit: the user
currently logged in is a parameter (`currentUser`, 0 when nobody is), and the
posted fields are a `Payload` record.

Modules: `PhpBuiltins` (`php.dfy`) states the PHP and WordPress primitives
the handlers use — `explode`, decimal rendering, `absint`, `empty()` and
`LIKE '%…%'`; `Frontend` (`frontend.dfy`) holds the data model, the store and
the four handlers; `FrontendProperties` (`properties.dfy`) holds the
properties that relate the handlers and the scenarios that run them one
after another.

Two behaviours of the code are kept as written. The counter update applies
no default to an unset limit type, unlike the other three handlers (see
Findings). The feedback repeats only the limit checks of the validation: it
checks neither the duplicate email, the token nor the account
(`FrontendProperties.FeedbackCases`).

## Model

| member | source | states |
|---|---|---|
| `PhpBuiltins.Explode` | Frontend.php:48 | `explode` gives at least one piece and no piece contains the separator |
| `PhpBuiltins.ImplodeExplode` | Frontend.php:48 | joining the pieces of `explode` with the separator gives back the original name |
| `PhpBuiltins.ExplodeCount` | Frontend.php:48-50 | the number of pieces is the number of separators plus one, so "exactly two pieces" means "exactly one colon" |
| `PhpBuiltins.Decimal` | Frontend.php:166 | the text of a form id or count is a non-empty run of digits without a leading zero (except for 0 itself) |
| `PhpBuiltins.DecimalValue` | Frontend.php:238 | the digits rendered for `n` have the value `n` |
| `PhpBuiltins.AbsIntDecimal` | Frontend.php:54-56 | reading an id back from its decimal text with `absint` gives the id |
| `PhpBuiltins.DecimalInjective` | Frontend.php:82 | different ids have different texts, so per-form keys built from the text do not collide |
| `PhpBuiltins.AbsIntIntText` | Frontend.php:124-125 | the text of any integer id, negative ones included, is numeric and `absint` reads its absolute value back |
| `PhpBuiltins.IntTextInjective` | Frontend.php:162 | different integer ids, negative ones included, have different texts, so transient and user-meta names do not collide |
| `Frontend.FieldName` | Frontend.php:166 | the field of a limit failure is `formid:` followed by the integer text of the posted id, which `absint` reads back as its absolute value |
| `Frontend.FieldNameInjective` | Frontend.php:166 | different posted form ids give different field names |
| `Frontend.CounterTagForm` | Frontend.php:48-54 | a tag name yields a form text exactly when it contains exactly one colon, and that text is everything after the colon |
| `Frontend.Store.RenderCounterTag` | Frontend.php:47-110 | a malformed name renders nothing and touches no token; a form text that is not an integer or reads as id 0 gives no settings and is handed to the hook with no limit type, issuing no token; per-user with a user logged in: remaining = cap − that user's counter, and exactly the token (form text, user) ↦ user is added; per-user logged out: the login variant; per-form: remaining = cap − form counter; any other stored type: handed to the hook with that type; only tokens change, at most one (form text, current user) key is added, and every token stays bound to the user it names |
| `Frontend.Store.Validate` | Frontend.php:122-202 | rejects on `your-email` with "This email has already been registered." exactly when a non-empty email occurs in a stored row of the form, whatever the limit settings; every other rejection is on `formid:<form>` of an enabled form; every message is one of the six of the source |
| `Frontend.Store.Feedback` | Frontend.php:214-256 | a non-empty message only for an enabled form; each limit-over text only on the path of its limit type |
| `Frontend.Store.CountSubmission` | Frontend.php:267-291 | enabled and stored type `formsubmit`: the form counter rises by exactly 1; enabled, stored type `userformsubmit` and a user logged in: only that user's counter for the form rises by 1; otherwise (disabled, no user, type unset or unknown) nothing changes; no counter ever decreases |
| `Frontend.Store.CountSubmissionDefaulted` | Frontend.php:273-289 | the counter update with an unset type read as `formsubmit`: for an enabled form in force `formsubmit`, the form counter rises by exactly 1 |
| `FrontendProperties.ValidatePassesIffAdmissible` | Frontend.php:129-201 | the validation lets a submission through exactly when it is admissible: no duplicate email and, if enabled, every check of the limit type in force holds |
| `FrontendProperties.DisabledFormOnlyChecksEmail` | Frontend.php:155-156 | with the limit disabled the only possible rejection is the duplicate email, whatever the counters are |
| `FrontendProperties.PerUserChecks` | Frontend.php:157-189 | per-user path in order: no login flag gives "You can not submit this form without login." whatever the counter; a missing or different token gives "Invalid user ID."; no account gives "Invalid user."; otherwise rejected with "Your form submission limit is over." exactly when the user's counter ≥ cap |
| `FrontendProperties.UnsetTypeReadsAsFormSubmit` | Frontend.php:150-153 | two stores that differ only in the submitted form's limit type being unset in one and `formsubmit` in the other give the same validation and the same feedback |
| `FrontendProperties.NegativeFormId` | Frontend.php:124-166 | a negative posted id reads the settings and per-form counter of its absolute value, but its key text and field name differ from those of the absolute value |
| `FrontendProperties.PerFormChecks` | Frontend.php:191-198 | per-form path, also for an unset type: rejected with "Form submission limit is over." exactly when the form counter ≥ cap, unchanged exactly when it is below |
| `FrontendProperties.OtherLimitTypePasses` | Frontend.php:157-201 | an unknown limit type is not checked: without a duplicate email the result is unchanged |
| `FrontendProperties.AnonymousAssertionRejected` | Frontend.php:160-169 | while every token is bound to the user it names, a submission asserting no user id always fails the token check |
| `FrontendProperties.CapOfThreeExample` | Frontend.php:191-197 | cap 3 with count 3 is rejected and the feedback says the limit is over; cap 3 with count 2 passes and the feedback reads "You have 1 form submission remaining." |
| `FrontendProperties.RemainingMessageReadsBack` | Frontend.php:250 | the remaining-count message contains the count as text that reads back as the count |
| `FrontendProperties.RemainingMessageInjective` | Frontend.php:238 | different remaining counts give different messages |
| `FrontendProperties.RemainingMessageDistinct` | Frontend.php:235-250 | a remaining-count message is neither empty nor one of the two limit-over texts |
| `FrontendProperties.FeedbackCases` | Frontend.php:218-253 | the feedback is empty when disabled, for an unknown type, or per-user without the login flag; otherwise the limit-over text when count ≥ cap and "You have N form submission remaining." with N = cap − count when below |
| `FrontendProperties.FeedbackAgreesPerForm` | Frontend.php:243-251 | per form, the feedback says the limit is over exactly when the validation rejects, and a positive remaining count exactly when it passes |
| `FrontendProperties.FeedbackAgreesPerUser` | Frontend.php:229-240 | per user, with a valid token and account, the feedback says the limit is over exactly when the validation rejects |
| `FrontendProperties.FeedbackDependsOnCountersOnly` | Frontend.php:214-256 | the feedback reads only the settings and the counters, so it repeats itself on unchanged settings and counters |
| `FrontendProperties.TagNameSplits` | Frontend.php:48-54 | a name `<prefix>:<key>` with no other colon yields the form text `key` |
| `FrontendProperties.CanonicalTagName` | Frontend.php:54-56 | a name `<prefix>:<decimal id>` addresses that id and keys its token by the id's own text |
| `FrontendProperties.UnreadableFormTexts` | Frontend.php:54-56 | an empty form text, `abc` and `7abc` are not integer texts, and `0` reads as id 0, so none of them reads any settings |
| `FrontendProperties.LeadingZeroTagName` | Frontend.php:54-82 | `counter:07` reads form 7's settings but keys its token by `07`, not by `7` |
| `FrontendProperties.RenderThenSubmit` | Frontend.php:69-82 | rendering the per-user tag for a logged-in user and then submitting as that user passes the token check; the outcome is decided by the account and the user's counter |
| `FrontendProperties.OverLimitPersists` | Frontend.php:279-288 | counting a submission never lifts a rejection for being over the limit |
| `FrontendProperties.SubmitAndCount` | Frontend.php:285-289 | an accepted per-form submission, once counted, raises the form counter by one and keeps it within the cap |
| `FrontendProperties.LegacyFormNeverLimited` | Frontend.php:273-289 | a form enabled with no stored type and cap 1 still passes validation after two counted submissions; its counter stays 0 |
| `FrontendProperties.LegacyFormLimitedWhenDefaulted` | Frontend.php:150-153 | with the defaulted counter update, the same form is rejected after one counted submission |

## Findings

| source | as written | input that shows it | evidently intended | confidence | as-written member | corrected member |
|---|---|---|---|---|---|---|
| Frontend.php:273-289 | the counter update compares the stored limit type without reading an unset type as `formsubmit`, unlike the tag (63-66), the validation (150-153) and the feedback (224-226) | a form with the limit enabled, cap 1 and no stored limit type: the validation checks the per-form counter, which never rises, so every submission passes | count the submission on the per-form counter, as the other three handlers treat the form | medium, not executed | `FrontendProperties.LegacyFormNeverLimited` | `Frontend.Store.CountSubmissionDefaulted` |

`Frontend.Store.CountSubmission` keeps the code's behaviour as written;
`Frontend.Store.CountSubmissionDefaulted` is the corrected update that
`FrontendProperties.LegacyFormLimitedWhenDefaulted` runs.

## Left out

- Hook registration (`__construct`, `add_custom_tag`) and the dispatch by the form framework are not modelled; the handlers are called directly.
- The extension hook `wpadcf7sl-counter-tag-template` for unknown limit types is modelled only as the `Delegated` result with the arguments it receives; what a third party does there is not modelled.
- Template rendering, `get_the_permalink` and translation are not modelled: the tag yields a record of the template arguments (with the redirect page id instead of its permalink), and the messages are the source's English strings.
- The duplicate lookup is the predicate "the email occurs in a stored row of this form" over a set of rows; the SQL text and its escaping are not modelled, and neither is MySQL's case-insensitive collation (the model matches case exactly) nor a missing table, for which the query reads as no duplicate.
- `sanitize_email` and `wp_unslash` are not modelled: the payload carries the email as already sanitized ("" when absent).
- Token expiry after 20 minutes is not modelled: tokens never expire, and an expired token is the same as an absent one.
- PHP's loose typing is not modelled: the cap and the counters are integers with unset read as 0, the enable flag is a boolean "equals 1", and a non-numeric cap (a warning or a type error in PHP arithmetic) is not represented.
- Frontend.Store.RenderCounterTag: PHP's `is_numeric` is modelled as an optional sign followed by digits only; numeric texts with leading whitespace, a decimal point or an exponent (`7.0`, `7e0`, ` 7`), which WordPress would read as form 7, are treated as unreadable.
- The posted form id is modelled as PHP's integer cast of `_wpcf7` (any integer); the asserted user id is taken as a number, so a non-canonical asserted user text in the transient name is not represented.
- The validation result object may already carry failures from other validators; `Outcome` records only what this handler adds.
- The race between a validation and the counter update of concurrent requests is not modelled: each handler runs alone on the store.
