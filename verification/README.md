# golsd core, modelled in Dafny

A model of the pure logic of the golsd generative soundboard. The program
plays randomly chosen spoken-word clips. Some clips come with four percussive
"beat" variants, and one of them plays alongside the clip. The model covers
three parts:

- **The catalog** (`lsd.dfy`, module `Lsd`, after `main.go`). `loadLSD` walks
  the name list. For every name it decodes the speech file and appends its
  buffer and format to two parallel arrays. For every beat-capable name it
  also decodes variants 1 to 4 and appends them as one beat list. The module
  also covers the accessors `SampleRate`, `Speech` and `Beat`, the membership
  test `stringInSlice`, and one selection step of the play loop (the branch on
  `fileIndex < len(l.beats)`). Fetch and decode together are one abstract,
  possibly failing function of the URL (`Decoder`). The URLs are built
  exactly as the program formats them.
- **The volume wrapper** (`volume.dfy`, module `Volume`, after `volume.go`).
  One pull computes a single gain for the whole block. That gain is zero when
  the wrapper is silent and `Base ^ VolumeFunc()` otherwise. The pull scales
  the frames the wrapped stream produced and passes `(n, ok)` and `Err()`
  through.
- **`bToMb`** (`util.dfy`, module `Util`, after `util.go`). A `uint64`
  conversion from bytes to whole mebibytes.

`results.dfy` holds `Option`/`Result`. `beep.dfy` holds the audio library's
values, kept opaque: frame, format, decoded clip, buffer and cursor.

The central facts proved:

- A load fails exactly when one of the URLs it fetches fails. It then stops
  at the first such URL in fetch order, reports it with that failure's cause,
  and returns no partial catalog.
- A successful load has one speech buffer and one format per name, in name
  order. It has one beat list per beat-capable name, again in name order.
  Each beat list holds variants 1 to 4, and each variant carries its speech's
  format, not its own.
- The play loop takes beat list `i` to belong to clip `i`. The model proves
  this pairing holds exactly when every beat-capable name comes before every
  other name. The program relies on that ordering without checking it.

## Model

| member | source | states |
|---|---|---|
| Lsd.StringInSlice | main.go:96-103 | true exactly when the name occurs somewhere in the list |
| Lsd.FirstFailure | main.go:46-50 | reports no error exactly when every URL decodes; a reported error names a URL of the list whose decode failed, with that decode's cause; that it is the first failing URL is stated by Lsd.FirstFailureIsFirst |
| Lsd.FirstFailureIsFirst | main.go:44-66 | every URL before the reported one in fetch order decodes, so the reported URL is the first failing one |
| Lsd.FirstFailureAppend | main.go:44-75 | fetching one URL list and then another fails at the first list's first failure, or else at the second's |
| Lsd.BeatIndices | main.go:58-74 | one entry per beat-capable name, in increasing name order, and every beat-capable position is listed |
| Lsd.LoadVariants | main.go:59-72 | yields exactly the buffers of variants v..4 in order, each built with the speech's format from that variant's frames; otherwise fails with the first failing variant's URL |
| Lsd.AddName | main.go:45-74 | one loop pass either fails at the first failing URL of that name, or appends the name's speech buffer and format, plus its four-variant beat list exactly when it is beat-capable, leaving earlier entries untouched |
| Lsd.LoadLSD | main.go:37-78 | a successful load has exactly one speech buffer and one format per name and at most one beat list per name; the rest of its contract is stated by Lsd.LoadReportsFirstFailure, Lsd.LoadSucceedsIffAllDecode and Lsd.LoadedCatalogDescribesNames |
| Lsd.LoadReportsFirstFailure | main.go:44-77 | a load fails exactly when some fetched URL fails, and its error is the first failing URL in fetch order; a failed load carries no catalog |
| Lsd.LoadSucceedsIffAllDecode | main.go:44-77 | a load succeeds exactly when every URL it fetches decodes |
| Lsd.DescribesExtend | main.go:52-55 | appending one name's entries to the catalog of the preceding names gives the catalog of the longer list |
| Lsd.LoadedCatalogDescribesNames | main.go:37-78 | a successful load puts name i's speech at index i of both parallel arrays, and the k-th beat-capable name's variants 1..4, stamped with its speech format, at beat index k |
| Lsd.LoadedCatalogShape | main.go:37-78 | after a successful load, buffers, formats and names have equal length, there is one beat list per beat-capable name, and every beat list has four buffers |
| Lsd.LoadedSampleRate | main.go:23-25 | a loaded catalog is non-empty exactly when the name list is; its sample rate is the rate decoded from the first name's speech file |
| Lsd.SampleRate | main.go:23-25 | the first speech format's rate, defined only for a non-empty catalog; what it is after a load is stated by Lsd.LoadedSampleRate |
| Lsd.Speech | main.go:27-30 | the cursor plays buffer p from frame 0 to its length |
| Lsd.Beat | main.go:32-35 | every variant draw in [0,4) is in bounds for a beat list of a well-formed catalog, and the cursor plays that whole variant |
| Lsd.Select | main.go:115-125 | the drawn clip is played whole; a beat is added exactly when the index is below the number of beat lists, and it is the drawn variant of beat list fileIndex played whole |
| Lsd.IndexAlignedIffBeatNamesLead | main.go:116-120 | beat list i belongs to name i for every i, and index i has one exactly when name i is beat-capable, if and only if all beat-capable names come first |
| Lsd.SelectPairsClipWithOwnBeats | main.go:116-120 | with the beat-capable names first, the play loop adds a beat exactly for beat-capable clips, and that beat is the drawn variant of the same name |
| Volume.Stream | volume.go:17-28 | passes the wrapped (n, ok) through; frames at n and beyond are unchanged; when silent the first n frames become zero and the volume function is not evaluated; otherwise it is evaluated once and both channels of each of the first n frames are multiplied by that one gain; gain 1 leaves the block unchanged |
| Volume.Err | volume.go:31-33 | the wrapper's error is the wrapped stream's error, unchanged |
| Util.BToMb | util.go:26-28 | equals b / 1048576 rounded down, so is at most b, and is 0 exactly when b is below 1048576 |
| Util.BToMbMonotone | util.go:26-28 | more bytes never convert to fewer mebibytes |

## Left out

- HTTP fetching (`readerFromURL`, main.go:80-94 and util.go:31-45): this is network I/O. It is folded into the abstract `Decoder`. Both copies have the same name, so main.go and util.go would not compile together as one package.
- WAV decoding and the library's buffer and streamer internals: these are foreign code. A decode yields a format and frames. `Buffer.Append` is modelled as storing the frames unchanged, and any requantisation to the buffer's precision is not modelled.
- `speaker.Init`, `speaker.Play` and `beep.Mixer` (main.go:108-113, main.go:118-124): these are the device sink and the library mixer. The model records only which streams are chosen, not where they go. The beat branch goes to the mixer. The other branch goes to `speaker.Play` directly.
- The `done` channel, the completion callback and the endless loop (main.go:110, 115-127): this is concurrency. One selection step is modelled (`Lsd.Select`).
- `rand.Intn` (main.go:33, main.go:116): the draws are parameters within their bounds. `Lsd.Select` takes the variant draw as a parameter even when no beat is added. The program draws it only in the beat branch.
- `math.Pow` and floating point (volume.go:21-25): the power function is an abstract `(real, real) -> real`. Sample arithmetic is exact real arithmetic, so NaN, infinities and negative zero are not modelled.
- `VolumeFunc`: it is modelled as the sequence of values its successive evaluations return, with an evaluation counter. What it computes is not part of this model.
- Volume.Stream: the wrapped stream is assumed to keep the audio library's contract and return `0 <= n <= len(samples)`. For any other `n`, `samples[:n]` (volume.go:23) would panic, and the model does not accept such inputs.
- Volume.Stream: the counter is a convention the model follows, not something it proves. The method advances it itself. What the contract does prove is that one gain, the value of a single evaluation, scales every frame of the block.
- Volume.Stream: the program scales the caller's slice in place, after the wrapped stream has written into it. The model instead takes the block as the wrapped stream left it (`ChildPull`) and returns the scaled block as a new sequence. For one pull the result is the same.
- Lsd.LoadReportsFirstFailure: every failure is reported as a `LoadError` with the URL attached. The program's decode panic (main.go:49, main.go:65) prints only the decoder's message. The URL appears only in the fetch log line and in the fetch-failure panics (main.go:81-89).
- `PrintMemUsage` (util.go:15-23): this is runtime introspection and printing.
- `lsdFilenames`, `beatFilenames` and `lsdBaseURL` are not part of this model. They are parameters of the load.
- Concurrent loading: the program loads the names one after another, in list order, and the model does the same.
- A single global sample rate: the code does not check that the speech files share one rate. It stamps each beat variant with its speech's format, whatever the variant's own format. `Lsd.LoadedCatalogDescribesNames` states exactly that.
- `main.go` never wraps a stream in `volume`, so no volume function, period or mixer summing is set up there. None is modelled.
