# Sign-in form validator — a Dafny model

This project models the hand-written validation of the "Sign in to continue"
form (`form2`). It also models the render rules that use the validator's
output. The form has two inputs, `email` and `password`.

- `validate(values)` turns the two values into an error object. That object
  has at most an `email` entry and a `password` entry.
- Email: an empty address gives "Email is required". An address that fails
  the pattern `/^[^\s@]+@[^\s@]+\.[^\s@]{2,}$/i` gives "Invalid Email".
- Password: an empty password gives "Password is required". A password
  shorter than 4 gives "Password too short".
- A field shows its error span, and its input gets the `input-error` class,
  when the field is touched and has an error.
- The submit button is enabled only when `dirty && isValid`. Otherwise it is
  disabled and carries the `disabled-btn` class.

Modules:

- `Utf16` (`utf16.dfy`): JavaScript strings as sequences of UTF-16 code units.
  `length` and a regular expression without the `u` flag both count code
  units. `Encode` builds such a string from Dafny characters, and
  `DecodeEncode` proves that it loses nothing. The model uses it to write
  concrete inputs.
- `EmailPattern` (`email_pattern.dfy`): the pattern as an explicit split of
  the input (`Matches`). Also a field-by-field description of the same
  strings (`WellFormed`): no white space, exactly one `@`, a non-empty local
  part, and a dot in the domain at domain index 1 or later with at least two
  code units after it. A one-pass scanner (`Test`) decides both.
- `Validation` (`validation.dfy`): the form values, the error object, the
  four messages, `validate`, and concrete examples.
- `View` (`view.dfy`): the form library's state as it reaches the template,
  and the display and enable rules of the template.

Modelling decisions:

- `touched` and `errors` are inputs to `Render`. The form library sets them:
  `touched` on blur, `errors` after each validation pass.
- `dirty` is `values != InitialValues`. `isValid` is "the error object has
  no entries", as the comment at `src/pages/form2.js:81` describes.
- The `i` flag has no effect. The pattern has no letters, and no code unit
  case-folds to `@` or to white space.
- `\s` is written out as the ECMAScript WhiteSpace and LineTerminator code
  points. The Unicode space separators are taken as of current Unicode.
- The pattern accepts some loose domains, for example `a@.b.cc` and
  `a@b..cc`. In both, the part between `@` and the chosen dot is non-empty
  and has no `@` or white space. The model keeps this behaviour.

## Model

| member | source | states |
|---|---|---|
| `EmailPattern.MatchesIffWellFormed` | src/pages/form2.js:34 | The pattern accepts a string iff it has no white space, exactly one `@` after a non-empty local part, and a dot at domain index ≥ 1 with at least two code units after it |
| `EmailPattern.NoAtNotWellFormed` | src/pages/form2.js:34 | A string without `@` never has the accepted shape |
| `EmailPattern.Test` | src/pages/form2.js:37 | `regex.test(email)` as one left-to-right scan; its answer is true iff the pattern accepts the string |
| `Validation.EmailError` | src/pages/form2.js:35-39 | The email entry is "Email is required" iff the address is empty, "Invalid Email" iff it is non-empty and fails the pattern, and absent iff the pattern accepts it |
| `Validation.PasswordError` | src/pages/form2.js:40-44 | The password entry is "Password is required" iff the password is empty, "Password too short" iff its length is 1 to 3 code units, and absent iff the length is at least 4 |
| `Validation.Validate` | src/pages/form2.js:32-46 | The error object is empty iff the address fits the pattern and the password has at least 4 code units; each entry holds one of its field's two messages |
| `Validation.MessagesNonEmpty` | src/pages/form2.js:35-44 | Every message `validate` sets is a non-empty string, so `errors.<field>` is truthy exactly when the entry exists |
| `Validation.FieldsIndependent` | src/pages/form2.js:32-45 | The email entry depends only on the email value and the password entry only on the password value |
| `Validation.InitialValuesInvalid` | src/pages/form2.js:19-22 | The initial values (both empty) give both "required" messages |
| `Validation.ExampleAddressWellFormed` | src/pages/form2.js:34 | "a@b.com" has the accepted shape |
| `Validation.ExampleValid` | src/pages/form2.js:32-46 | `{email: "a@b.com", password: "abcd"}` gives an empty error object |
| `Validation.ExampleShortPassword` | src/pages/form2.js:32-46 | `{email: "a@b.com", password: "abc"}` gives only "Password too short" |
| `Validation.ExampleBadEmail` | src/pages/form2.js:37-38 | `{email: "bad-email", password: "abcd"}` gives only "Invalid Email" |
| `Validation.ExampleAstralPassword` | src/pages/form2.js:42-43 | `length` counts code units: two emoji pass the length rule, one emoji is too short |
| `View.RenderField` | src/pages/form2.js:119-125 | The error span appears iff the field is touched and its error is a non-empty text; it shows that text; the `input-error` class is present iff the span is |
| `View.RenderSubmit` | src/pages/form2.js:146-150 | The button is disabled iff not (`dirty` and `isValid`), and it has the class `disabled-btn` iff it is disabled (otherwise the empty class) |
| `View.Render` | src/pages/form2.js:106-153 | The button is disabled iff the values are the initial ones or the error object has an entry; each field's span and class follow the touched-and-error rule for that field |
| `View.ValidatedErrorShown` | src/pages/form2.js:137-143 | With the errors `validate` computed, a field's span shows iff the field is touched and has an entry, and the span shows that entry |
| `View.ValidatedSubmitEnabled` | src/pages/form2.js:81-83 | With the errors `validate` computed, the button is enabled iff the address fits the pattern and the password has at least 4 code units; `dirty` adds nothing then |
| `View.PristineDisabled` | src/pages/form2.js:19-22 | With the initial values the button is disabled whatever the errors and touched state; the pristine form shows no error |
| `View.TouchedEmptyEmailShown` | src/pages/form2.js:123-125 | A touched, empty email field shows "Email is required" and has the `input-error` class |

## Left out

- The schema-based form (`src/pages/form3.js`) is not modelled. It declares its rules through an external schema library whose checks and default messages are not part of this model.
- The form library's event handling is not modelled: `handleChange`, `handleBlur`, setting `touched` on blur and on submit, and when validation runs. `touched` and `errors` are inputs to `View.Render` instead.
- The submit callback is not modelled. `submitForm` only writes the values to the console, and the library decides when to call it.
- The JSX markup is not modelled: heading, labels, input types and ids. Only the conditions that choose classes, spans and the `disabled` attribute are.
- The messages are Dafny strings, not code-unit strings. They are only compared and displayed.
- `EmailPattern.IsSpace` follows the ECMAScript `\s` set for current Unicode. Engines built on an older Unicode table can differ in the space separators.
