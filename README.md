# vulpy (hardened variant): password filter and security headers

This project models two pieces of the hardened ("good") variant of vulpy, a
deliberately small Flask web application, and proves what they promise.

- **The password filter** (`vulpy/good/cutpasswd.py`, module `PasswordFilter`
  in `password_filter.dfy`). The script reads a leaked-password wordlist line
  by line. It strips each line of surrounding whitespace. It prints the
  stripped line only when the line has at least twelve characters, a
  lower-case letter, an upper-case letter and a digit. In the model the
  wordlist is the sequence of its lines. What the script prints is the
  sequence `CutPasswords` returns. That method is the script's loop, with the
  same four `continue` checks in the same order, and it is proved equal to the
  specification function `Filter`. The lemmas about `Filter` state the
  script's contract: what is printed, in which order, and why.
- **The security headers** (`vulpy/good/vulpy.py`, module `SecurityHeaders`
  in `security_headers.dfy`).
  - At start-up the application builds its Content-Security-Policy from
    `csp.txt`. It skips lines starting with `#`, deletes line feeds and
    appends every non-empty remainder. `LoadCsp` is that loop. It is proved
    equal to the specification function `AssembleCsp`.
  - After every request, the hook `add_security_headers` adds three headers
    to the response:
    - the policy, only when the policy is non-empty;
    - `X-Frame-Options: SAMEORIGIN`;
    - `X-Content-Type-Options: nosniff`.

    The response is a class whose header map the method
    `AddSecurityHeaders` updates in place. The new map is described by the
    function `SecuredHeaders`.

The script calls `str.strip()`, which removes whitespace at both ends of a
line, not only the trailing line feed. `Strip` does the same.

Whitespace for `Strip` is the ASCII part of Python's `str.isspace`: tab, line
feed, vertical tab, form feed, carriage return, the separators 0x1C-0x1F and
space.

## Model

| member | source | states |
|---|---|---|
| PasswordFilter.Strip | vulpy/good/cutpasswd.py:12 | the stripped line is no longer than the line and neither starts nor ends with whitespace |
| PasswordFilter.StripPadded | vulpy/good/cutpasswd.py:12 | any whitespace padding around a trimmed core strips to exactly that core, which pins `Strip` down completely |
| PasswordFilter.StripEmptyIff | vulpy/good/cutpasswd.py:12 | a line strips to the empty string if and only if it is all whitespace |
| PasswordFilter.StripIdempotent | vulpy/good/cutpasswd.py:12 | stripping twice gives the same as stripping once |
| PasswordFilter.StripFixedIff | vulpy/good/cutpasswd.py:12 | stripping leaves a string unchanged if and only if it has no whitespace at either end |
| PasswordFilter.HasCharInIff | vulpy/good/cutpasswd.py:17-24 | a one-character regex class matches somewhere in a string if and only if some position holds a character of that range |
| PasswordFilter.CountIn | vulpy/good/cutpasswd.py:17-24 | the number of matches of a class is at least one if and only if the class matches somewhere, so each `< 1` test rejects exactly the candidates lacking that class |
| PasswordFilter.Qualifies | vulpy/good/cutpasswd.py:14-24 | definition, no contract of its own: the policy a stripped candidate must meet, at least 12 characters and one match each of `[a-z]`, `[A-Z]` and `[0-9]`; `EmittedIff` ties it to the output |
| PasswordFilter.Filter | vulpy/good/cutpasswd.py:10-26 | definition, no contract of its own: the script's output, line after line, each line contributing its stripped form when that qualifies; the lemmas below characterise it |
| PasswordFilter.CutPasswords | vulpy/good/cutpasswd.py:9-26 | the script's loop, with its length check and three class checks in source order, returns exactly `Filter` of the wordlist |
| PasswordFilter.FilterLength | vulpy/good/cutpasswd.py:10-26 | at most one line is printed per input line, and an empty wordlist prints nothing |
| PasswordFilter.FilterAppend | vulpy/good/cutpasswd.py:10-26 | the output for two concatenated wordlists is the output for the first followed by the output for the second |
| PasswordFilter.FilterSound | vulpy/good/cutpasswd.py:12-26 | every printed password passes the policy, has at least 12 characters, has no surrounding whitespace and is the stripped form of some wordlist line |
| PasswordFilter.QualifyingIndicesIncrease | vulpy/good/cutpasswd.py:10 | the indices of the passing lines are listed in strictly increasing order |
| PasswordFilter.QualifyingIndexIff | vulpy/good/cutpasswd.py:14-26 | a line's index is among the passing indices if and only if its stripped form passes the policy |
| PasswordFilter.FilterIsSelection | vulpy/good/cutpasswd.py:10-26 | the output is, one for one and in input order, the stripped lines at the passing indices; with the two lemmas above, it is the ordered subsequence of passing stripped lines |
| PasswordFilter.EmittedIff | vulpy/good/cutpasswd.py:12-26 | the stripped form of a line is printed if and only if it is at least 12 characters long and holds a lower-case letter, an upper-case letter and a digit |
| PasswordFilter.MissingClassRejected | vulpy/good/cutpasswd.py:17-24 | a candidate lacking any one of the three character classes is never printed, however long it is |
| PasswordFilter.FilterIdempotent | vulpy/good/cutpasswd.py:12-26 | feeding the printed list back through the filter prints the same list |
| PasswordFilter.SampleAccepted | vulpy/good/cutpasswd.py:14-24 | a 15-character candidate with all three classes passes the policy |
| PasswordFilter.SampleTooShort | vulpy/good/cutpasswd.py:14-15 | a 7-character candidate with all three classes is rejected |
| PasswordFilter.SampleNoUpper | vulpy/good/cutpasswd.py:20-21 | a long candidate with no upper-case letter is rejected |
| PasswordFilter.SampleNoDigit | vulpy/good/cutpasswd.py:23-24 | a long candidate with no digit is rejected |
| SecurityHeaders.RemoveNewlines | vulpy/good/vulpy.py:41 | the result holds no line feed and is no longer than the line |
| SecurityHeaders.RemoveNewlinesAppend | vulpy/good/vulpy.py:41 | deleting line feeds from a concatenation is deleting them from each part |
| SecurityHeaders.RemoveNewlinesKeepsPlainText | vulpy/good/vulpy.py:41 | a line without line feeds is left unchanged |
| SecurityHeaders.RemoveNewlinesEmptyIff | vulpy/good/vulpy.py:41 | deleting line feeds leaves the empty string if and only if the line is nothing but line feeds; with the two lemmas above this pins the function down as deleting each line feed and keeping every other character |
| SecurityHeaders.IsComment | vulpy/good/vulpy.py:39 | definition, no contract of its own: a line is a comment when its first character is `#` |
| SecurityHeaders.AssembleCsp | vulpy/good/vulpy.py:33-43 | definition, no contract of its own: the empty policy when the file is absent, otherwise the kept pieces joined in file order; characterised by the lemmas below |
| SecurityHeaders.LoadCsp | vulpy/good/vulpy.py:33-43 | the start-up loop returns exactly `AssembleCsp`; the policy holds no line feed, and it is empty when the policy file is absent |
| SecurityHeaders.CspAppend | vulpy/good/vulpy.py:38-43 | the policy of two concatenated files is the policy of the first followed by that of the second |
| SecurityHeaders.CspHasNoNewline | vulpy/good/vulpy.py:41-43 | the assembled policy never holds a line feed, whether or not the file exists |
| SecurityHeaders.CommentLineIgnored | vulpy/good/vulpy.py:39-40 | inserting a line that starts with `#` anywhere in the file leaves the policy unchanged |
| SecurityHeaders.NonCommentLineKept | vulpy/good/vulpy.py:39-43 | a line whose first character is not `#` goes into the policy with its line feeds deleted, a `#` further on included, and verbatim when it holds no line feed |
| SecurityHeaders.CspIsJoinedText | vulpy/good/vulpy.py:38-43 | the policy equals the plain fold of all non-comment lines with their line feeds deleted, so the `if line` test only skips empty pieces |
| SecurityHeaders.CspEmptyIff | vulpy/good/vulpy.py:38-43 | the policy is empty if and only if every line starts with `#` or is made of line feeds only |
| SecurityHeaders.BlankLinesJoinToNothing | vulpy/good/vulpy.py:38-43 | a file made only of comments and bare line feeds joins to the empty string |
| SecurityHeaders.NothingJoinedFromBlankLines | vulpy/good/vulpy.py:38-43 | when the joined text is empty, every line is a comment or only line feeds |
| SecurityHeaders.SecuredHeaders | vulpy/good/vulpy.py:54-66 | the two fixed headers carry their values; the policy header is set to the policy when it is non-empty and otherwise keeps its presence and old value; the key set grows by exactly the written names; every other header keeps its value |
| SecurityHeaders.SecuredHeadersIdempotent | vulpy/good/vulpy.py:54-66 | running the hook twice with the same policy gives the same headers as running it once |
| SecurityHeaders.Response.constructor | vulpy/good/vulpy.py:55 | a response starts with the headers it is given |
| SecurityHeaders.AddSecurityHeaders | vulpy/good/vulpy.py:54-66 | the hook returns the same response, and its header map becomes `SecuredHeaders` of the old map, with the fixed headers and a non-empty policy set |

## Left out

- File I/O: opening the wordlist and `csp.txt`, `readlines()` and the
  `is_file()` test are not modelled. A file is the sequence of its lines, and
  the policy file is a presence flag plus its lines. Python's universal-newline
  translation of `\r\n` is taken as already done.
- CutPasswords: a missing wordlist makes the script stop with an error. The
  model has no error path for it, because the file is taken as given.
- The printing itself: the script's `print` of each password is the returned
  sequence. The `print('CSP:', csp)` log line at vulpy/good/vulpy.py:44 is not
  modelled.
- Strip: only ASCII whitespace is removed. Python's `str.strip()` also removes
  non-ASCII Unicode whitespace such as U+0085 or U+00A0.
- The regular-expression engine: each pattern `[a-z]`, `[A-Z]`, `[0-9]` is a
  single character class, modelled as a code-point range.
- SecuredHeaders: Werkzeug's headers are case-insensitive and may hold several
  values per name. The model uses a map with exact, case-sensitive keys and one
  value per name.
- The module-level `csp` global is passed to `AddSecurityHeaders` as a
  parameter.
- The rest of the Flask application is not part of this model:
  - the secret key;
  - CSRF protection;
  - the blueprints and the `/` redirect;
  - the session loading in `before_request`;
  - `app.run`.

  `vulpy/good/vulpy-ssl.py` is not part of this model either.
