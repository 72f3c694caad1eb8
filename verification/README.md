# sync-repo: bundle naming and pull selection

This project models the logic part of `sync-repo.py`. That script keeps one git
repository in step across several machines ("instances") through a Backblaze B2
bucket. Each instance owns one whole-repository bundle, encrypted and uploaded as
`auto-commit-repo.<instance>.bundle.enc`. A pull lists the bucket. It pulls every
object whose second `.`-field after `auto-commit-repo` is non-empty and differs from
the local instance name. Such an object need not be a bundle, and the bundle of an
instance with an empty name is never pulled.

The model covers four things:

- the two name builders and the error they raise for an instance name containing `.`;
- the parser that recovers the instance from an object name;
- the loop of `command_pull` that decides which listed objects are pulled and counts them;
- the `.` to `_` replacement applied to the instance name taken from the command line.

Python's `str.split` is modelled faithfully (`PyStr.Split`): empty fields are kept and
the result is never empty. The parser's `parts[1]` fails on an object named exactly
`auto-commit-repo`. The model makes that failure an explicit `IndexError` outcome.
Inside `command_pull` this exception ends the whole run. The model reports such a run
as `Failed`, together with the objects already pulled before it.

The script keeps one bundle per instance and imposes no order between bundles.

Modules:

- `PyTypes`: `None`-or-value, exceptions, and return-or-raise results.
- `PyStr`: `split`, `join`, `count` and single-character `replace`, with their laws.
- `BundleNames`: `make_bundle_name`, `make_enc_bundle_name`, `extract_instance_name`.
- `Seqs`: an order-keeping filter over a sequence, with its laws.
- `Pull`: the selection loop of `command_pull`, with a reference filter built on `Seqs.Filter`.
- `Cli`: the sanitised instance name and the name a push uploads under.

## Model

| member | source | states |
|---|---|---|
| PyStr.Split | sync-repo.py:35 | `split('.')` gives at least one field and no field contains the separator. The first field is the longest separator-free prefix; a single field means the string has no separator and is returned whole |
| PyStr.SplitTail | sync-repo.py:35 | after the first field and its separator, the remaining fields are the split of the rest of the string |
| PyStr.SplitJoin | sync-repo.py:35 | splitting separator-free parts joined by the separator gives back exactly those parts, empty ones included |
| PyStr.JoinSplit | sync-repo.py:35 | joining the fields of any string with the separator gives back the string, so no character is lost |
| PyStr.SplitLength | sync-repo.py:35 | the number of fields is the number of separators plus one |
| PyStr.HeadField | sync-repo.py:35-36 | the first field equals a separator-free `p` exactly when the string is `p` or starts with `p` followed by the separator |
| PyStr.ReplaceChar | sync-repo.py:132 | single-character `replace` keeps the length, substitutes every occurrence and keeps every other character in place |
| BundleNames.MakeBundleName | sync-repo.py:22-26 | raises `RuntimeError` exactly when the instance name contains `.`. Otherwise the name splits into the three fields `auto-commit-repo`, the instance, `bundle` |
| BundleNames.MakeEncBundleName | sync-repo.py:28-32 | same error condition. Otherwise the name is the plain bundle name plus `.enc`, splitting into four fields ending in `bundle`, `enc` |
| BundleNames.NameLiterals | sync-repo.py:22-32 | for a dot-free instance `x` the names are exactly `auto-commit-repo.x.bundle` and `auto-commit-repo.x.bundle.enc` |
| BundleNames.ExtractInstanceName | sync-repo.py:34-39 | raises `IndexError` exactly on the bare prefix. Returns `None` exactly when the name neither is the prefix nor starts with `auto-commit-repo.`. Otherwise returns the second field |
| BundleNames.ExtractIffSecondField | sync-repo.py:34-39 | the parser returns `v` if and only if the name is `auto-commit-repo.`, then the separator-free `v`, then the end or another separator |
| BundleNames.ExtractIgnoresLaterFields | sync-repo.py:35-39 | `auto-commit-repo.x` and `auto-commit-repo.x.<anything>` both parse to `x`: later fields are ignored |
| BundleNames.RoundTrip | sync-repo.py:22-39 | for every dot-free instance name, parsing either of its bundle names gives the name back |
| Pull.Selected | sync-repo.py:111-112 | an object passes the skip test iff its second field after `auto-commit-repo` is non-empty and differs from the local instance name. The `not remote_instance_name` test is covered through the helper `Truthy` (`None` and `""` are false) |
| Pull.SelectedEntries | sync-repo.py:110-116 | the reference filter over the listing: it is no longer than the listing and holds only entries that pass the skip test |
| Pull.CommandPull | sync-repo.py:106-121 | the run completes iff no listed object is the bare prefix. It then pulls exactly the selected entries, in listing order, and reports their count. Otherwise it fails with `IndexError` at the first bare-prefix object, having pulled the entries selected before it |
| Pull.SelectedEntriesAppend | sync-repo.py:110-116 | selection over a concatenated listing is the selection over each part, in order |
| Pull.PullStep | sync-repo.py:110-116 | one loop step: an entry the parser accepts is added after the earlier pulls exactly when it is truthy and not the local name |
| Pull.SelectedEntriesMembers | sync-repo.py:110-116 | an object is among the pulled ones iff it is listed and passes the skip test |
| Pull.SelectedEntriesCount | sync-repo.py:108-116 | each selected entry is pulled exactly as many times as it is listed. An unselected entry is never pulled |
| Pull.NeverPullsOwnBundle | sync-repo.py:111-113 | an instance skips both its own plain and its own encrypted bundle |
| Pull.PullsOtherBundles | sync-repo.py:111-116 | another instance's encrypted bundle is pulled iff that instance's name is non-empty and differs from the local one |
| Cli.Sanitise | sync-repo.py:132 | the sanitised instance name has no `.`, has the argument's length, keeps every other character and turns each `.` into `_` |
| Cli.SanitiseIdempotent | sync-repo.py:132 | sanitising twice equals sanitising once |
| Cli.SanitiseKeepsDotFree | sync-repo.py:132 | an argument without `.` is used unchanged |
| Cli.PushObjectName | sync-repo.py:74-98 | a push raises before uploading iff the instance name contains `.`. Otherwise it uploads under `make_enc_bundle_name` of the instance, and that object parses back to the pushing instance |
| Cli.CliPushNeverRaises | sync-repo.py:132-135 | with a sanitised instance name, neither name builder raises on the push path |
| Cli.CliExchange | sync-repo.py:132-137 | instance `b` pulls what instance `a` pushed iff `a`'s sanitised name is non-empty and differs from `b`'s |
| Cli.CliDotUnderscoreSameInstance | sync-repo.py:132 | arguments of equal length that differ only in `.` versus `_` sanitise to the same instance name, so neither pulls the object the other pushed |

## Left out

- Every subprocess call is left out: `git bundle create`, `git pull`, `gpg`, `backblaze-b2` upload, download and `ls`, and `notify-send`. These are external programs. Pulling a selected object is modelled as appending its name to `pulled`.
- A download, decryption or `git pull` failure inside `pull_from_remote` would also end a pull run through the `except` handler. This is not modelled, because those outcomes belong to external programs.
- The bucket listing is a given sequence of object names. Reading the bucket and decoding the JSON listing are not modelled.
- File and directory handling is left out: temporary directories, `os.chdir`, and reading `.passphrase`.
- The `except Exception` handlers are modelled only as the failure outcome they end in: `Raise` results and `PullReport.Failed`. The notification text is not modelled.
- The argument count check and the `push`/`pull` dispatch are left out. The model keeps only the sanitisation of the instance argument.
- `Cli.PushObjectName` covers only the naming part of `command_push`: which object name is uploaded, or the error that prevents any upload.
