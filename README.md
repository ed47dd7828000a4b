# django-debug-toolbar-user-panel, modelled in Dafny

The user panel for the Django Debug Toolbar lets a developer see the logged-in user
and log in as any other user by typing an email address, a username or a numeric id.
This project models the two pieces of that add-on that contain logic of their own:

- `UserForm.get_lookup` (module `Forms`, file `forms.dfy`): it turns the submitted text
  into exactly one keyword filter for the user query. Text containing `@` becomes an
  `email` filter. Text that Python's `int()` accepts becomes a `pk` filter on the
  converted integer when it is shorter than ten characters, and a filter on the user
  model's `USERNAME_FIELD` otherwise. Any other text becomes a `USERNAME_FIELD` filter
  too. The field name is a parameter, so nothing assumes a field called `username`.
- The part of Python's `int()` that decides the numeric branch (module `PyInt`, file
  `pyint.dfy`). It strips surrounding whitespace, then reads an optional sign and
  decimal digits, with single underscores allowed between digits. The accepted
  language is stated declaratively (`IsDigitGroups`, `DecimalValue`). A separate
  scanner (`Scan`) reads the digits in one left-to-right pass, and
  `ScanMatchesGrammar` proves that the two agree.
- `UserPanel.content` (module `Panels`, file `panels.dfy`): it returns the forbidden
  response unless `DEBUG_TOOLBAR_USER_DEBUG` is on, or is unset while `DEBUG` is on.
  Otherwise it renders the logged-in user's `(attname, value)` pairs for every field
  except `password`, the first ten users in last-login order, and the `next` parameter.
  The method `Content` builds `current` with a loop and `continue`, as the source does,
  and is proved against the function `CurrentEntries`.

The filter keys are `email`, `pk` and the configured `USERNAME_FIELD`.

Two things the proofs bring out:

- `int()` never accepts text containing `@` (`AtSignNeverParses`). So checking for `@`
  first changes no outcome: the email branch and the numeric branch cannot overlap.
- Only a primary key with at most nine digits can be reached through the form
  (`PkHasAtMostNineDigits`, `PkRoundTrip`). An id of ten digits or more, typed as it is
  displayed, is looked up as a username instead (`LongPkIsUsername`).

## Model

| member | source | states |
|---|---|---|
| `Forms.GetLookup` | debug_toolbar_user_panel/forms.py:7-22 | The result is an email lookup exactly when the value contains `@`, and then carries the value unchanged. It is a pk lookup exactly when there is no `@`, `int()` accepts the value and the raw value is shorter than 10 characters, and then carries the integer the literal denotes. Every other value gives a username lookup on the given field with the value unchanged. |
| `Forms.Kwargs` | debug_toolbar_user_panel/forms.py:12-22 | The returned dictionary has exactly one key: `email`, the configured username field, or `pk`, holding the lookup's value. |
| `Forms.ExactlyOneKey` | debug_toolbar_user_panel/forms.py:12-22 | Every input yields a one-key dictionary, and it is one of `{email: val}`, `{USERNAME_FIELD: val}` or `{pk: n}`. |
| `Forms.EmailLookup` | debug_toolbar_user_panel/forms.py:12-13 | A value containing `@` yields `{email: val}` with the value unchanged. |
| `Forms.AtSignNeverParses` | debug_toolbar_user_panel/forms.py:12-16 | `int()` refuses every value containing `@`, so the `@` test taking precedence never hides a number. |
| `Forms.LongNumberIsUsername` | debug_toolbar_user_panel/forms.py:16-18 | A value `int()` accepts whose raw length is 10 or more yields `{USERNAME_FIELD: val}` with the original text, not the integer. |
| `Forms.ShortNumberIsPk` | debug_toolbar_user_panel/forms.py:16-20 | A value `int()` accepts whose raw length is below 10 yields `{pk: int(val)}`. |
| `Forms.NonNumberIsUsername` | debug_toolbar_user_panel/forms.py:15-22 | A value without `@` that `int()` refuses yields `{USERNAME_FIELD: val}` with the value unchanged. |
| `Forms.UsernameFieldInjected` | debug_toolbar_user_panel/forms.py:9-22 | Whether a username lookup results does not depend on the field name; its key is always the configured field, and all other results are the same for every field name. |
| `Forms.PkHasAtMostNineDigits` | debug_toolbar_user_panel/forms.py:16-20 | Any pk the form produces lies between -999999999 and 999999999. |
| `Forms.PkRoundTrip` | debug_toolbar_user_panel/forms.py:15-20 | A non-negative id below 10^9, typed as Python prints it, yields a pk lookup on that id. |
| `Forms.NegativePkRoundTrip` | debug_toolbar_user_panel/forms.py:15-20 | A negative id above -10^8, typed with its minus sign, yields a pk lookup on that id. |
| `Forms.LongPkIsUsername` | debug_toolbar_user_panel/forms.py:15-18 | An id of 10^9 or more, typed as Python prints it, yields a username lookup with that text. |
| `Forms.EmailExample` | debug_toolbar_user_panel/forms.py:12-13 | `a@b.com` gives an email lookup. |
| `Forms.ShortNumberExample` | debug_toolbar_user_panel/forms.py:16-20 | `123` gives a pk lookup on 123. |
| `Forms.TenDigitExample` | debug_toolbar_user_panel/forms.py:16-18 | `1234567890` gives a username lookup. |
| `Forms.NameExample` | debug_toolbar_user_panel/forms.py:21-22 | `alice` gives a username lookup. |
| `Forms.EmptyExample` | debug_toolbar_user_panel/forms.py:21-22 | The empty string gives a username lookup. |
| `Forms.SignCountsExample` | debug_toolbar_user_panel/forms.py:17-18 | `-123456789` parses but has 10 characters, so it gives a username lookup. |
| `Forms.LeadingZerosExample` | debug_toolbar_user_panel/forms.py:17-18 | `0000000042` parses but has 10 characters, so it gives a username lookup. |
| `Forms.UnderscoreExample` | debug_toolbar_user_panel/forms.py:16-20 | `1_000` gives a pk lookup on 1000. |
| `PyInt.ParseInt` | debug_toolbar_user_panel/forms.py:16 | `int(val)` succeeds exactly when the stripped text is an optional sign followed by digit groups, and then returns the value of that literal. |
| `PyInt.IntRejectsFileSeparator` | debug_toolbar_user_panel/forms.py:16 | `int()` skips only space and `\t \n \v \f \r` around a number, so text starting with U+001C is refused. |
| `PyInt.ScanMatchesGrammar` | debug_toolbar_user_panel/forms.py:16 | The left-to-right digit scanner accepts exactly the digit groups (digits, with single underscores only between digits) and computes their positional decimal value. |
| `PyInt.StripBounds` | debug_toolbar_user_panel/forms.py:16 | Stripping cuts off exactly the leading and trailing whitespace: everything removed is whitespace, and what is kept starts and ends with a non-space. |
| `PyInt.StripKeeps` | debug_toolbar_user_panel/forms.py:16 | Every character that is not whitespace survives stripping. |
| `PyInt.DecimalValueBound` | debug_toolbar_user_panel/forms.py:16 | A run of k digits and underscores denotes less than 10^k. |
| `PyInt.DecimalValueOfDecimal` | debug_toolbar_user_panel/forms.py:16 | Reading back the decimal rendering of n gives n. |
| `PyInt.DecimalLength` | debug_toolbar_user_panel/forms.py:17 | The decimal rendering of n has at most k characters exactly when n is below 10^k. |
| `PyInt.ParseDecimal` | debug_toolbar_user_panel/forms.py:16 | `int(str(n)) == n` for every n >= 0. |
| `PyInt.ParseDigits` | debug_toolbar_user_panel/forms.py:16 | Unsigned digit groups convert to their positional decimal value. |
| `PyInt.ParseMinusDigits` | debug_toolbar_user_panel/forms.py:16 | A minus sign followed by digit groups converts to the negated value of the digits. |
| `PyInt.ParseNegativeDecimal` | debug_toolbar_user_panel/forms.py:16 | `int("-" + str(n)) == -n` for every n >= 0. |
| `Panels.Content` | debug_toolbar_user_panel/panels.py:89-112 | The response is forbidden exactly when the debug setting is off. Otherwise `current` holds the field entries when a user is logged in and is empty when no one is. `users` holds the first ten rows in last-login order, and `next` is the request's `next` parameter. |
| `Panels.DebugEnabled` | debug_toolbar_user_panel/panels.py:92 | The panel is enabled exactly when `DEBUG_TOOLBAR_USER_DEBUG` is set to a true value, or is unset while `DEBUG` is true. |
| `Panels.CurrentEntries` | debug_toolbar_user_panel/panels.py:95-103 | The entries built from the fields number at most the fields, and each pairs an attribute name of the user with the user's value for it. |
| `Panels.Entry` | debug_toolbar_user_panel/panels.py:101-103 | An entry pairs the field's `attname`, not its `name`, with the user's value at that attname. |
| `Panels.RecentUsers` | debug_toolbar_user_panel/panels.py:110 | The listed users are a prefix of the ordered table with at most 10 rows, and all of the table when it has fewer. |
| `Panels.ExplicitSettingOverridesDebug` | debug_toolbar_user_panel/panels.py:92-93 | An explicit `DEBUG_TOOLBAR_USER_DEBUG` decides alone, whatever `DEBUG` is, in both directions. |
| `Panels.FallsBackToDebug` | debug_toolbar_user_panel/panels.py:92 | When `DEBUG_TOOLBAR_USER_DEBUG` is absent, the panel follows `DEBUG`. |
| `Panels.CurrentEntriesPrefix` | debug_toolbar_user_panel/panels.py:98-103 | The entries built from the first m fields are a prefix of the entries built from all of them. |
| `Panels.EntryOfField` | debug_toolbar_user_panel/panels.py:98-103 | Every field not named `password` contributes its entry. It sits at the position equal to the number of such fields before it, so there is one entry per field, in field order. |
| `Panels.FieldOfEntry` | debug_toolbar_user_panel/panels.py:98-103 | Every entry is the entry of some field not named `password`, so nothing comes from the password field. |
| `Panels.EntryCount` | debug_toolbar_user_panel/panels.py:98-103 | There are exactly as many entries as fields not named `password`. |
| `Panels.RecentUsersAreMostRecent` | debug_toolbar_user_panel/panels.py:110 | If the table is ordered by last login, newest first, then every listed user logged in no earlier than every user left off the list. |

## Left out

- `views.py` (`login_form`, `login`, `logout`) is not part of this model. These views are thin wrappers over Django's authentication, `get_object_or_404` and request decorators. `login` queries `django.contrib.auth.models.User` directly rather than the configured user model, so the model makes no claim that a `USERNAME_FIELD` lookup finds a user end to end.
- The panel's display properties (`nav_title`, `title`, `url`, `nav_subtitle`), `process_response`, the URL patterns of `get_urls`, template rendering, translation, and the unbound `UserForm()` placed in the template context are all left out. They are framework plumbing with no logic of their own.
- Form validation by the `CharField` (the required check and whitespace stripping) is not modelled. `GetLookup` takes any string, and its `int()` model strips whitespace itself, so text that was not cleaned is still handled as Python would.
- `PyInt.ParseInt` models ASCII text only. Python also accepts non-ASCII decimal digits and non-ASCII whitespace around a number, and those are not modelled.
- `PyInt.ParseInt` ignores the limit Python 3.11 and later put on the number of digits `int()` converts (4300 by default). Any text over that limit is 10 or more characters long, so it gives a username lookup either way.
- The database is a parameter. `Content` takes the users table already ordered by `-last_login`. The query itself, how a database orders null `last_login` values, and `get_object_or_404`'s zero-or-many matches are left out.
- `Panels.Settings` holds the truth value of `DEBUG_TOOLBAR_USER_DEBUG` when it is set. An explicit `None` therefore counts as false and does not fall back to `DEBUG`, as in Python.
- `Panels.Content` requires the logged-in user to have a value for every non-password field's `attname`, which a Django model instance always has. Python's `AttributeError` for a missing attribute is not modelled.
