# SkyVault file servers: a Dafny model of their decision logic

SkyVault ships two near-identical Flask file servers. Each one accepts uploads into a single
upload folder, lists that folder and serves downloads from it:

- `filevault.py` protects uploads and downloads with a shared secret. The secret arrives in the
  `X-Password` header, or in the JSON `password` field of `/verify-password`, and is compared
  directly with `-pass`.
- `server.py` puts every route behind HTTP basic authentication. The callback ignores the
  username and checks the password against a hash made at startup.

This project models the logic around the web framework, in six modules:

- `Extensions` (`extensions.dfy`) models `allowed_file`. Both files contain the same text, so
  one definition serves both. The extension is the text after the last `.`, lowercased, or `""`
  when there is no `.`. A whitelist admits exactly the listed extensions, a blacklist admits
  everything else, and any other rule type rejects every file. When no rule is installed,
  every file is allowed.
- `Requests` (`requests.dfy`) holds the request parts both servers read: the `file` part and the method.
- `Passwords` (`passwords.dfy`) models Python's truthiness test on `-pass`: an absent or empty
  password leaves a server open.
- `FileVault` (`filevault.dfy`) covers:
  - the startup rule, with `-ext` entries lowercased and installed only when both flags are given;
  - the header check and `/verify-password`;
  - a `Vault` class holding the upload folder as `files: map<string, seq<bv8>>`;
  - `Index`, the POST and GET branches of `index`, and `Download`.
- `Server` (`server.dfy`) covers:
  - the startup rule, where `-ext` without `-type` stops the program and entries are stored
    exactly as given;
  - the `users` table and the basic-auth callback;
  - a `Vault` class whose `Index` reports each upload outcome as a message on the listing page,
    and `Download`.

Three things are abstract and are fixed when a `Vault` is constructed:

- `secure_filename` is the function-valued field `sanitize`. Nothing is assumed about it, so
  the model proves nothing about traversal-freedom or idempotence.
- `check_password_hash` is the field `checkHash`. The lemma `VerifyPasswordExact` states what
  follows when the check accepts exactly the password the hash was made from.
- `generate_password_hash` uses a random salt, so its output is a constructor parameter.

The process exits when `server.py`'s flags fail validation. `Server.StartupPolicy` models that
exit as a `Failure`, and the `Server.Vault` constructor requires startup to have succeeded.

In these places the code is laxer or different from what a hardened file vault would do. The model follows the code:

- `filevault.py` answers a disallowed extension with the listing page, not a 400.
- `filevault.py` lists files on `GET /` without checking a credential.
- `filevault.py` silently ignores `-ext` without `-type`.
- `server.py` does not lowercase its `-ext` entries, so an entry such as `PDF` never matches.
- `filevault.py` compares passwords with plain equality, not in constant time.
- Both servers apply the extension policy to the raw client filename, but store the file under
  its sanitized name. The model does the same, and since `sanitize` is unconstrained it proves
  nothing about the extension of the stored name.
- `filevault.py`'s download relies on `send_from_directory` for its 404 and has no existence
  check of its own.

## Model

| member | source | states |
|---|---|---|
| `Passwords.Configured` | filevault.py:215 | an absent or empty password leaves the server open; any non-empty password is configured |
| `Extensions.AfterLastDot` | filevault.py:204 | the result is the longest suffix without a `.`: it is a suffix of the name, contains no `.`, and is preceded by a `.` whenever it is shorter than the name |
| `Extensions.LowerChar` | filevault.py:204 | an ASCII upper-case letter becomes its lower-case letter (code point plus 32); every other character, `.` included, is kept |
| `Extensions.Lower` | filevault.py:204 | lowercasing keeps the length, maps every character as `LowerChar` does, leaves no upper-case letter, and changes nothing in a string that is already lower-case |
| `Extensions.LowerIdentifiesCase` | filevault.py:204 | two strings lower to the same string exactly when they differ only in the case of ASCII letters |
| `Extensions.Extension` | filevault.py:204 | an extension never contains a `.` or an upper-case letter, and a name without a `.` has the extension `""` |
| `Extensions.ExtensionIsLastSegment` | filevault.py:204 | when no `.` follows the `.` at position i, the extension is the lowercased text after position i |
| `Extensions.ExtensionOfTarGz` | filevault.py:204 | `a.tar.gz` has the extension `gz` |
| `Extensions.ExtensionOfTrailingDot` | filevault.py:204 | `file.` has the extension `""` |
| `Extensions.ExtensionOfDotfile` | filevault.py:204 | `.bashrc` has the extension `bashrc` |
| `Extensions.ExtensionOfDotless` | filevault.py:204 | `README` has the extension `""` |
| `Extensions.ExtensionOfReports` | filevault.py:204 | `report.pdf` and `report.PDF` both have the extension `pdf` |
| `Extensions.ExtensionOfExe` | filevault.py:204 | `virus.exe` has the extension `exe` |
| `Extensions.ExtensionIgnoresCase` | filevault.py:204 | lowercasing a name first does not change its extension |
| `Extensions.AllowedFile` | filevault.py:200-211 | with no rule installed every name is allowed, `""` and dotless names included; with a rule, only a whitelist or a blacklist can admit anything, so any other rule type rejects all |
| `Extensions.RuleDecidesOnLastSegment` | filevault.py:204-211 | a whitelist admits a name iff its lowercased last segment is listed, a blacklist iff it is not, and any other type never admits |
| `Extensions.RuleDecidesDotlessByEmpty` | filevault.py:204-211 | a name without a `.` is admitted by a whitelist iff `""` is listed, and by a blacklist iff it is not |
| `Extensions.BlacklistComplementsWhitelist` | filevault.py:207-210 | over the same extensions, a blacklist admits exactly the names the whitelist rejects |
| `Extensions.AllowedFileIgnoresCase` | filevault.py:200-211 | the case of a file name never changes the verdict |
| `Extensions.UppercaseEntriesInert` | server.py:168-174 | removing every rule entry that holds an upper-case letter never changes the verdict |
| `FileVault.LowerAll` | filevault.py:27 | the installed entries have no upper-case letter; each `-ext` entry's lowercase form is installed, and nothing else is |
| `FileVault.StartupPolicy` | filevault.py:24-31 | a rule is installed iff both `-ext` and `-type` are given; it then has the given type and the lowercased entries, and otherwise the default empty rule stays |
| `FileVault.OneFlagAllowsAll` | filevault.py:24-31 | giving only one of `-ext` and `-type` leaves every file allowed |
| `FileVault.StartupWhitelistAnyCase` | filevault.py:24-31 | a startup whitelist admits a file iff some `-ext` entry equals its extension up to case |
| `FileVault.StartupBlacklistAnyCase` | filevault.py:24-31 | a startup blacklist admits a file iff no `-ext` entry equals its extension up to case |
| `FileVault.StartupPdfWhitelist` | filevault.py:24-31 | `-ext PDF -type whitelist` admits `report.pdf` and `report.PDF` and rejects `virus.exe` |
| `FileVault.PasswordAccepted` | filevault.py:226-227 | with no password configured every request passes; otherwise only a header equal to the password passes, and a missing header fails |
| `FileVault.PasswordAcceptedExamples` | filevault.py:226 | an unset or empty password admits anything; `secret` admits `secret` and rejects `wrong` and `""` |
| `FileVault.VerifyPasswordReply` | filevault.py:214-221 | the reply is `ok` with 200 or `invalid` with 401, and it is `ok` exactly when the header check would accept the same credential |
| `FileVault.Vault.constructor` | filevault.py:9-31 | the server starts with the given password and folder contents and the configuration `StartupPolicy` gives |
| `FileVault.Vault.Index` | filevault.py:223-242 | a POST fails in order with 401 on a wrong password, 400 with no file part, and 400 with an empty filename. An allowed file is stored under its sanitized name, overwriting, and answered with 204. A disallowed file or a GET gets the listing. Only the storing branch changes the folder |
| `FileVault.Vault.Download` | filevault.py:244-253 | 401 exactly when the header check fails; otherwise the file's own bytes if the folder holds that name, and 404 if not |
| `FileVault.UploadThenDownload` | filevault.py:236-253 | after an accepted upload, downloading its sanitized name returns exactly the uploaded bytes |
| `FileVault.UploadTwice` | filevault.py:236-239 | two uploads under one name leave one entry for it, holding the second upload's bytes |
| `FileVault.RejectedUploadLeavesFolder` | filevault.py:225-227 | a POST with a wrong password leaves the folder unchanged |
| `Server.StartupPolicy` | server.py:24-32 | `-ext` without `-type` is a startup error; otherwise a rule is installed iff `-ext` is given, with the given type and exactly the given entries, not lowercased |
| `Server.TypeAloneAllowsAll` | server.py:24-32 | `-type` without `-ext` starts with every file allowed |
| `Server.UppercaseEntriesNeverMatch` | server.py:27-32 | a startup rule gives the same verdict as the same rule without its entries that hold an upper-case letter |
| `Server.UppercasePdfEntry` | server.py:31 | with `-ext PDF`, a whitelist admits neither `report.pdf` nor `report.PDF`, and a blacklist blocks neither |
| `Server.Vault.constructor` | server.py:10-36 | startup installs the configuration `StartupPolicy` gives, stores the password hash under `admin` iff a password is configured, and starts from the existing folder contents |
| `Server.Vault.VerifyPassword` | server.py:38-42 | every pair passes when no password is configured; otherwise the verdict is the hash check of the password alone, and the username plays no part |
| `Server.Vault.VerifyPasswordExact` | server.py:34-42 | if the hash check accepts exactly the password it was made from, the callback accepts exactly the configured password, under any username |
| `Server.Vault.Index` | server.py:177-197 | unauthenticated requests get 401 and change nothing. A POST reports "No file selected" for a missing part or an empty name, then "File type not allowed", and otherwise saves under the sanitized name, overwriting. Only the save changes the folder. Every authenticated request gets the listing of the folder as it is afterwards |
| `Server.Vault.Download` | server.py:199-208 | 401 exactly when authentication fails, 404 exactly when it succeeds and the folder has no such file, and otherwise that file's bytes |
| `Server.UploadThenDownload` | server.py:189-208 | after an accepted upload its sanitized name is in the folder, and downloading that name returns exactly the uploaded bytes |

## Left out

- HTML templates, embedded JavaScript and the browser's `sessionStorage` are presentation and client-side code.
- Flask routing and argparse parsing are left out. argparse's `choices` check is not modelled, so `-type` is any optional string. An `-ext` list that was not given is modelled as the empty sequence.
- `os.makedirs` is left out.
- `os.listdir` is left out. The upload folder is a map, and a listing is the set of its names, without order or subdirectories.
- `send_from_directory` streaming is left out, and so is its path joining and normalisation. A download looks the requested name up verbatim among the folder's names.
- `secure_filename`, `generate_password_hash` and `check_password_hash` are external code. They appear as abstract fields and parameters.
- The model does not cover a sanitized name that comes out empty. There, `file.save` would write onto the folder path itself and fail with a server error, while the model stores under `""`.
- `Extensions.Lower`: lowercases ASCII letters only, while Python's `str.lower` also maps other Unicode letters.
- The `/verify-password` body: a body that is not a JSON object (not JSON at all, or JSON such as `[]` on which `data.get` raises), and a `password` field that is not a string, are left out.
- Flask-HTTPAuth's parsing of the `Authorization` header is external code. The model starts from the username and password the callback receives.
- The 100 MB limit and its 413 reply are left out. Flask enforces them through `MAX_CONTENT_LENGTH`.
- Constant-time comparison, write-then-rename, and failing fast on `-ext` in `filevault.py` are left out. None of them is in the code.
- Concurrent uploads are left out. Racing them is the host server's concern.
