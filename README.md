# telegram-simple-redirect, modelled in Dafny

`telegram-simple-redirect.py` relays every message a Telegram bot receives to an HTTP endpoint.
For each message the bot does four things. It keeps the largest fifth of the photo variants
(`remove_file_duplicates`). It flattens the message into a `ParsedMessage` record. It POSTs that
record to the configured endpoint. Only if the endpoint answers 200 does it echo the record into
the chat and send the kept photos and the video back. Beside the bot runs a small Flask sink that
logs what it receives. Both processes read their settings from the command line.

This project models the deterministic core of that script:

- `selector.dfy` (module `Selector`) models the attachment selector. Python's stable
  `sorted(..., key=file_size)` is a stable insertion sort (`SortBySize`). The in-place
  `list.reverse()` is `ReverseInPlace` on an array. `RemoveFileDuplicates` is the selector as
  written: an early return for no photos, then sort, copy into a fresh array, reverse in place,
  and slice. `Selection` is the same result as a function. The lemmas state length, subset,
  order, tie order and "largest first" for every input.
- `normaliser.dfy` (module `Normaliser`) builds the `ParsedMessage` record from an incoming message
  and the kept photos.
- `forwarder.dfy` (module `Forwarder`) models the success-gated chat actions (`Forward`) and the
  whole `redirect` handler (`Redirect`).
- `config.dfy` (module `Config`) covers three pieces of startup configuration. It resolves the
  host and port `listen` binds. It checks the credentials `bot` needs. It also models the part of
  Python's `int()` that reads the port text, with its inverse `Show` and the round trip between
  them.
- `telegram.dfy` (module `Telegram`) holds the platform objects the handler reads, and
  `wrappers.dfy` holds `Option` and `Result`.

Some documented behaviour differs from what the code does. The model follows the code:

- An absent `--port` does not fall back to 6060. `int(None)` raises a `TypeError`, and only
  `ValueError` is caught (telegram-simple-redirect.py:101-104). So `ResolvePort(None)` is
  `Failure(PortNotGiven)`. Only a port text that is not an integer falls back to `DEFAULT_PORT`.
- There is no dedicated error for a malformed message. A message without a sender makes
  `from_user.id` raise, and the handler stops before anything is posted. `Normalise` returns
  `Failure(NoSender)` for it. A Telegram message always carries its date, so the date is not
  optional here.

## Model

| member | source | states |
|---|---|---|
| `Selector.RemoveFileDuplicates` | telegram-simple-redirect.py:109-117 | The selector as written returns `Selection(files)`. It keeps exactly `len(files) // 5` variants, in non-increasing size, as a sub-multiset of the input. No variant left out is larger than a kept one. |
| `Selector.ReverseInPlace` | telegram-simple-redirect.py:114-115 | After `correct.reverse()` the array holds the reversal of its old contents. |
| `Selector.ReversedAt` | telegram-simple-redirect.py:115 | Element `k` of the reversal is element `n - 1 - k` of the original. |
| `Selector.SortBySize` | telegram-simple-redirect.py:112 | `sorted` returns a permutation of its input (same multiset, same length). |
| `Selector.SortAscending` | telegram-simple-redirect.py:112 | `sorted` returns the variants in ascending `file_size` order. |
| `Selector.OfSizeSort` | telegram-simple-redirect.py:112 | The sort is stable: for every size, the variants of that size keep their input order. |
| `Selector.OfSizeReversed` | telegram-simple-redirect.py:115 | Reversing reverses the order of the variants of each size. |
| `Selector.SelectionLength` | telegram-simple-redirect.py:110-117 | The selection has exactly `n / 5` elements (integer division). It is empty for fewer than five variants, including none. |
| `Selector.SelectionSubset` | telegram-simple-redirect.py:112-117 | Every kept variant is drawn from the input. As a multiset the selection is contained in the input. |
| `Selector.SelectionOrder` | telegram-simple-redirect.py:112-117 | The kept variants come in non-increasing size order. |
| `Selector.SelectionTies` | telegram-simple-redirect.py:112-117 | For each size, the kept variants of that size are a prefix of that size's variants in reverse input order, so ties appear latest-first. |
| `Selector.SelectionIsTop` | telegram-simple-redirect.py:112-117 | Each kept variant is at least as large as each input variant left out, counting multiplicities. |
| `Selector.KeepsOne` | telegram-simple-redirect.py:113-117 | With five or six variants exactly one is kept. It comes from the input and is at least as large as every other variant. |
| `Selector.SixVariantsKeepLargest` | telegram-simple-redirect.py:109-117 | Six variants of strictly increasing sizes (for example 10 to 60) give only the largest. |
| `Selector.TieKeepsLaterVariant` | telegram-simple-redirect.py:112-117 | Five variants where the 2nd and 4th tie for largest give only the 4th. |
| `Normaliser.Normalise` | telegram-simple-redirect.py:133-150 | The record exists if and only if the message has a sender; otherwise the result is `NoSender`. Identity fields are copied. Absent text, caption, formatted text and username become `""`. `images` lists the dictionaries of the given photos, in order. `video` is empty exactly when there is no video, and is otherwise the video's dictionary. Both timestamp renderings come from the one message date. |
| `Forwarder.Forward` | telegram-simple-redirect.py:154-165 | For a status other than 200 the chat sees nothing. For 200 it sees one reply with the record, then `send_photo` for each kept photo in order, then `send_video` if there is a video. The reply is only ever first. A `send_video` happens if and only if the status is 200 and a video is present, and only as the last action. |
| `Forwarder.Redirect` | telegram-simple-redirect.py:132-165 | A record is posted if and only if the message has a sender. The posted record is the normalised message with the selector's output as images, so it has `len(photo) // 5` images. Without a record or a 200 status no chat action happens. Otherwise the trace is one reply, the selected photos in selector order, then the video if present. |
| `Config.ResolveHost` | telegram-simple-redirect.py:98 | The host is never empty: the given host when it is present and non-empty, otherwise `"localhost"`. |
| `Config.ResolvePort` | telegram-simple-redirect.py:101-104 | An absent port is an error (the uncaught `TypeError`). A present port text gives its integer value, or 6060 when `int()` rejects it. |
| `Config.ResolveBind` | telegram-simple-redirect.py:97-104 | `listen` gets an address if and only if a port text is given. The address pairs the resolved host with the resolved port. |
| `Config.CheckCredentials` | telegram-simple-redirect.py:122-130 | `bot` goes on if and only if both the endpoint and the token are non-empty. An empty or absent endpoint is reported first. An empty or absent token is reported only when the endpoint is present. |
| `Config.ShowNat` | telegram-simple-redirect.py:102 | The decimal form of a natural number is a non-empty string of digits. |
| `Config.ParseIntShow` | telegram-simple-redirect.py:102 | `int()` reads the decimal form of every integer back as that integer. |
| `Config.ParseIntPadded` | telegram-simple-redirect.py:102 | Leading or trailing white space around a decimal number does not change what `int()` reads. |
| `Config.NoDigitNoInt` | telegram-simple-redirect.py:102-104 | `int()` rejects every string without a decimal digit, so it raises `ValueError`. |
| `Config.ResolvePortShow` | telegram-simple-redirect.py:101-104 | A port given as a decimal number, possibly padded with white space, is the port that is bound. |
| `Config.ResolvePortFallback` | telegram-simple-redirect.py:101-104 | A port text with no digit (empty, a word, a URL) falls back to 6060. |

## Left out

- The Flask sink `pong` and `app.run` (telegram-simple-redirect.py:82-96, 106) are HTTP-server plumbing. The 406 branch cannot be reached, because the route accepts only POST. The `JSONDecodeError` handler never runs, because `json.dumps` of a string does not raise it.
- The bot application wiring (telegram-simple-redirect.py:167-179) is left out: `ApplicationBuilder`, the catch-all `MessageHandler` and `run_polling`. This is foreign library code. The handler's input is the message itself, so an update that carries no message is not modelled.
- `requests.post` (telegram-simple-redirect.py:152) is network I/O. Only its status code enters, as a parameter. A request that raises (connection refused, for example) stops the handler like a non-200 status, and the model does not distinguish that case.
- The real `reply_markdown`, `send_photo` and `send_video` calls are modelled only as trace events. The trace assumes each call returns. A chat-side failure after a successful forward is not modelled.
- The pretty-printed JSON reply text (telegram-simple-redirect.py:157-158) is library serialisation. The reply event carries the record itself.
- Process supervision (telegram-simple-redirect.py:182-190) exists for concurrency, which the model does not cover.
- `argparse` (telegram-simple-redirect.py:37-77) is a library wrapper. The model starts from its result, `Args`, a record of optional strings.
- `date.isoformat()` and `date.timestamp()` (telegram-simple-redirect.py:148-149) are library output, and the second is a float. Both are opaque fields of `Date` and are copied unchanged.
- The platform objects' `to_dict()` is library code. `ToDict` gives a fixed set of fields, which is enough to show that a present video never becomes an empty dictionary.
- `Telegram.PhotoSize` has a `size` that is always a natural number. Telegram may omit `file_size`, and `sorted` would then raise. That case is not modelled.
- `Selector.KeptCount` is `int(len / 5)`, computed in floating point. It equals `len // 5` for every list length below 2^53, which covers any list that fits in memory.
- `Config.ParseInt` covers ASCII digits, an optional sign, single underscores between digits, and ASCII and Unicode white space. It does not cover non-ASCII decimal digits, which `int()` also accepts. It also ignores the 4300-digit limit of recent Python versions. Beyond that limit `int()` raises `ValueError`, and the port would fall back to 6060.
