/** The sound catalog of the soundboard and the selection step of its play
    loop (main.go).

    The catalog holds, in name order, one speech buffer and its format per
    name, and one list of four beat-variant buffers per beat-capable name.
    Fetching a URL and decoding the WAV file it serves are one abstract,
    possibly failing function of the URL; the first failure aborts the load. */
module Lsd {
  import opened Results
  import opened Beep

  /** Fetch and decode of the WAV file at a URL; the error is the cause. */
  type Decoder = string -> Result<Decoded, string>

  /** Why a load was aborted: which URL, and what its fetch or decode said.
      The program's decode panic prints only the decoder's message; the URL
      is kept here so that the failing file can be named. */
  datatype LoadError = LoadError(url: string, cause: string)

  /** The catalog: `buffers` and `formats` are parallel, one entry per name;
      `beats` has one entry per beat-capable name, in name order. */
  datatype Catalog = Catalog(buffers: seq<Buffer>, formats: seq<Format>, beats: seq<seq<Buffer>>)

  /** The shape every loaded catalog has and the play loop relies on. */
  predicate WellFormed(l: Catalog) {
    && |l.buffers| == |l.formats|
    && |l.beats| <= |l.buffers|
    && forall k :: 0 <= k < |l.beats| ==> |l.beats[k]| == 4
  }

  // ---------------------------------------------------------------------
  // URLs and membership

  /** The URL of a name's speech file: "<base>/<name>.wav". */
  function SpeechUrl(base: string, name: string): (url: string) {
    base + "/" + name + ".wav"
  }

  /** The URL of beat variant `v` (1 to 4) of a name: "<base>/<name><v>.wav". */
  function BeatUrl(base: string, name: string, v: nat): (url: string)
    requires 1 <= v <= 4
  {
    base + "/" + name + [('0' as int + v) as char] + ".wav"
  }

  /** Linear membership test over a list of names. */
  function StringInSlice(a: string, list: seq<string>): (r: bool)
    ensures r <==> a in list
  {
    if |list| == 0 then false
    else if list[0] == a then true
    else
      assert forall b :: b in list[1..] ==> b in list;
      assert a in list ==> list[0] == a || a in list[1..];
      StringInSlice(a, list[1..])
  }

  // ---------------------------------------------------------------------
  // Failures

  /** The error of the first URL in `urls` whose fetch or decode fails. */
  function FirstFailure(decode: Decoder, urls: seq<string>): (r: Option<LoadError>)
    ensures r.None? <==> forall k :: 0 <= k < |urls| ==> decode(urls[k]).Success?
    ensures r.Some? ==> r.value.url in urls && decode(r.value.url) == Failure(r.value.cause)
  {
    if |urls| == 0 then None
    else
      match decode(urls[0])
      case Failure(e) => Some(LoadError(urls[0], e))
      case Success(_) =>
        assert forall k :: 1 <= k < |urls| ==> urls[1..][k - 1] == urls[k];
        FirstFailure(decode, urls[1..])
  }

  /** The reported URL is the first failing one: every URL before it in the
      list decodes. */
  lemma {:induction false} FirstFailureIsFirst(decode: Decoder, urls: seq<string>)
    requires FirstFailure(decode, urls).Some?
    ensures exists k :: 0 <= k < |urls| && urls[k] == FirstFailure(decode, urls).value.url
                        && forall j :: 0 <= j < k ==> decode(urls[j]).Success?
    decreases |urls|
  {
    var e := FirstFailure(decode, urls).value;
    if decode(urls[0]).Failure? {
      assert urls[0] == e.url;
    } else {
      var rest := urls[1..];
      FirstFailureIsFirst(decode, rest);
      var k :| 0 <= k < |rest| && rest[k] == e.url && forall j :: 0 <= j < k ==> decode(rest[j]).Success?;
      assert urls[k + 1] == e.url;
      assert forall j :: 1 <= j < k + 1 ==> urls[j] == rest[j - 1];
    }
  }

  /** Fetching `a` and then `b` fails first where fetching `a` fails, and
      otherwise where fetching `b` fails. */
  lemma {:induction false} FirstFailureAppend(decode: Decoder, a: seq<string>, b: seq<string>)
    ensures FirstFailure(decode, a + b)
         == if FirstFailure(decode, a).Some? then FirstFailure(decode, a) else FirstFailure(decode, b)
    decreases |a|
  {
    if |a| == 0 {
      assert a + b == b;
    } else {
      assert (a + b)[0] == a[0];
      assert (a + b)[1..] == a[1..] + b;
      if decode(a[0]).Success? {
        FirstFailureAppend(decode, a[1..], b);
      }
    }
  }

  /** The URLs of beat variants `v` to 4 of a name, in fetch order. */
  function VariantUrlsFrom(base: string, name: string, v: nat): (urls: seq<string>)
    requires 1 <= v <= 5
    decreases 5 - v
  {
    if v == 5 then [] else [BeatUrl(base, name, v)] + VariantUrlsFrom(base, name, v + 1)
  }

  /** The URLs fetched for one name, in fetch order: its speech file, then
      its four beat variants if it is beat-capable. */
  function NameUrls(base: string, name: string, beatNames: seq<string>): (urls: seq<string>) {
    [SpeechUrl(base, name)] + (if name in beatNames then VariantUrlsFrom(base, name, 1) else [])
  }

  /** Every URL a load of `names` fetches, in fetch order. */
  function FetchOrder(base: string, names: seq<string>, beatNames: seq<string>): (urls: seq<string>)
    decreases |names|
  {
    if |names| == 0 then []
    else FetchOrder(base, names[..|names| - 1], beatNames) + NameUrls(base, names[|names| - 1], beatNames)
  }

  // ---------------------------------------------------------------------
  // What a load produces

  /** Variant `v` of a name was decoded and stored with the given format
      (the speech's), not with its own. */
  predicate VariantLoaded(b: Buffer, base: string, name: string, format: Format, v: nat, decode: Decoder)
    requires 1 <= v <= 4
  {
    && decode(BeatUrl(base, name, v)).Success?
    && b == Buffer(format, decode(BeatUrl(base, name, v)).value.frames)
  }

  /** A name's beat list: exactly variants 1, 2, 3, 4 in that order. */
  predicate VariantsLoaded(bs: seq<Buffer>, base: string, name: string, format: Format, decode: Decoder) {
    && |bs| == 4
    && forall k :: 0 <= k < 4 ==> VariantLoaded(bs[k], base, name, format, k + 1, decode)
  }

  /** Entry `i` of the parallel arrays holds the decoded speech file of `name`
      and its format. */
  predicate SpeechLoaded(l: Catalog, i: nat, base: string, name: string, decode: Decoder)
    requires i < |l.buffers| && i < |l.formats|
  {
    && decode(SpeechUrl(base, name)).Success?
    && l.formats[i] == decode(SpeechUrl(base, name)).value.format
    && l.buffers[i] == Buffer(l.formats[i], decode(SpeechUrl(base, name)).value.frames)
  }

  /** The positions of the beat-capable names in `names`, in order. */
  function BeatIndices(names: seq<string>, beatNames: seq<string>): (r: seq<nat>)
    ensures |r| <= |names|
    ensures forall k :: 0 <= k < |r| ==> r[k] < |names| && names[r[k]] in beatNames
    ensures forall k, k' :: 0 <= k < k' < |r| ==> r[k] < r[k']
    ensures forall j :: 0 <= j < |names| && names[j] in beatNames ==> j in r
    decreases |names|
  {
    if |names| == 0 then []
    else
      var init := names[..|names| - 1];
      assert forall j :: 0 <= j < |init| ==> init[j] == names[j];
      var last := |names| - 1;
      BeatIndices(init, beatNames) + (if names[last] in beatNames then [last] else [])
  }

  /** `l` is the catalog that loading `names` must produce: entry `i` of the
      parallel arrays comes from `names[i]`, and beat list `k` comes from the
      `k`-th beat-capable name, built with that name's speech format. */
  predicate Describes(l: Catalog, base: string, names: seq<string>, beatNames: seq<string>, decode: Decoder) {
    && |l.buffers| == |names|
    && |l.formats| == |names|
    && (forall i :: 0 <= i < |names| ==> SpeechLoaded(l, i, base, names[i], decode))
    && |l.beats| == |BeatIndices(names, beatNames)|
    && (forall k :: 0 <= k < |l.beats| ==>
          VariantsLoaded(l.beats[k], base, names[BeatIndices(names, beatNames)[k]],
                         l.formats[BeatIndices(names, beatNames)[k]], decode))
  }

  // ---------------------------------------------------------------------
  // Loading

  /** Decodes beat variants `v` to 4 of a name into buffers carrying the
      speech's format; the first failing variant aborts. */
  function LoadVariants(base: string, name: string, format: Format, decode: Decoder, v: nat): (r: Result<seq<Buffer>, LoadError>)
    requires 1 <= v <= 5
    ensures r.ErrorOf() == FirstFailure(decode, VariantUrlsFrom(base, name, v))
    ensures r.Success? ==> |r.value| == 5 - v
    ensures r.Success? ==> forall k :: 0 <= k < 5 - v ==> VariantLoaded(r.value[k], base, name, format, v + k, decode)
    decreases 5 - v
  {
    if v == 5 then Success([])
    else
      var url := BeatUrl(base, name, v);
      assert VariantUrlsFrom(base, name, v)[0] == url;
      assert VariantUrlsFrom(base, name, v)[1..] == VariantUrlsFrom(base, name, v + 1);
      match decode(url)
      case Failure(e) => Failure(LoadError(url, e))
      case Success(d) =>
        match LoadVariants(base, name, format, decode, v + 1)
        case Failure(e) => Failure(e)
        case Success(rest) => Success([Buffer(format, d.frames)] + rest)
  }

  /** `l2` is `l1` with one more name appended: its speech buffer and format
      at the end of the parallel arrays, and its beat list at the end of
      `beats` exactly when the name is beat-capable. */
  predicate Extends(l1: Catalog, l2: Catalog, base: string, name: string, beatNames: seq<string>, decode: Decoder) {
    && |l2.buffers| == |l1.buffers| + 1
    && |l2.formats| == |l1.formats| + 1
    && l2.buffers[..|l1.buffers|] == l1.buffers
    && l2.formats[..|l1.formats|] == l1.formats
    && decode(SpeechUrl(base, name)).Success?
    && l2.formats[|l1.formats|] == decode(SpeechUrl(base, name)).value.format
    && l2.buffers[|l1.buffers|] == Buffer(l2.formats[|l1.formats|], decode(SpeechUrl(base, name)).value.frames)
    && (name !in beatNames ==> l2.beats == l1.beats)
    && (name in beatNames ==>
          && |l2.beats| == |l1.beats| + 1
          && l2.beats[..|l1.beats|] == l1.beats
          && VariantsLoaded(l2.beats[|l1.beats|], base, name, l2.formats[|l1.formats|], decode))
  }

  /** One pass of the load loop: decode the name's speech file, append its
      format and buffer, and for a beat-capable name decode its four
      variants and append them as one beat list. */
  function AddName(base: string, l: Catalog, name: string, beatNames: seq<string>, decode: Decoder): (r: Result<Catalog, LoadError>)
    ensures r.ErrorOf() == FirstFailure(decode, NameUrls(base, name, beatNames))
    ensures r.Success? ==> Extends(l, r.value, base, name, beatNames, decode)
  {
    var url := SpeechUrl(base, name);
    assert NameUrls(base, name, beatNames)[0] == url;
    assert NameUrls(base, name, beatNames)[1..]
        == if name in beatNames then VariantUrlsFrom(base, name, 1) else [];
    match decode(url)
    case Failure(e) => Failure(LoadError(url, e))
    case Success(d) =>
      var sounds := l.(formats := l.formats + [d.format], buffers := l.buffers + [Buffer(d.format, d.frames)]);
      if StringInSlice(name, beatNames) then
        match LoadVariants(base, name, d.format, decode, 1)
        case Failure(e) => Failure(e)
        case Success(bufferBeats) => Success(sounds.(beats := sounds.beats + [bufferBeats]))
      else
        Success(sounds)
  }

  /** Loads every name in order, starting from the empty catalog. The
      prefix `names[..n-1]` is loaded first and the last name added after it,
      which is the order of the program's loop. */
  function LoadLSD(base: string, names: seq<string>, beatNames: seq<string>, decode: Decoder): (r: Result<Catalog, LoadError>)
    ensures r.Success? ==> |r.value.buffers| == |r.value.formats| == |names| && |r.value.beats| <= |names|
    decreases |names|
  {
    if |names| == 0 then Success(Catalog([], [], []))
    else
      match LoadLSD(base, names[..|names| - 1], beatNames, decode)
      case Failure(e) => Failure(e)
      case Success(l) => AddName(base, l, names[|names| - 1], beatNames, decode)
  }

  /** A load fails exactly when some URL it fetches fails, and then it
      reports the first such URL in fetch order; no partial catalog is
      returned. */
  lemma {:induction false} LoadReportsFirstFailure(base: string, names: seq<string>, beatNames: seq<string>, decode: Decoder)
    ensures LoadLSD(base, names, beatNames, decode).ErrorOf() == FirstFailure(decode, FetchOrder(base, names, beatNames))
    decreases |names|
  {
    if |names| > 0 {
      var init := names[..|names| - 1];
      var last := names[|names| - 1];
      LoadReportsFirstFailure(base, init, beatNames, decode);
      FirstFailureAppend(decode, FetchOrder(base, init, beatNames), NameUrls(base, last, beatNames));
    }
  }

  /** Every URL of the load decodes exactly when the load succeeds. */
  lemma {:induction false} LoadSucceedsIffAllDecode(base: string, names: seq<string>, beatNames: seq<string>, decode: Decoder)
    ensures LoadLSD(base, names, beatNames, decode).Success?
        <==> forall u :: u in FetchOrder(base, names, beatNames) ==> decode(u).Success?
  {
    LoadReportsFirstFailure(base, names, beatNames, decode);
    var urls := FetchOrder(base, names, beatNames);
    if forall u :: u in urls ==> decode(u).Success? {
      assert forall k :: 0 <= k < |urls| ==> decode(urls[k]).Success?;
    }
  }

  /** Appending one name to a catalog of `init` gives the catalog of
      `init + [last]`. */
  lemma {:induction false} DescribesExtend(l1: Catalog, l2: Catalog, base: string, names: seq<string>, beatNames: seq<string>, decode: Decoder)
    requires |names| > 0
    requires Describes(l1, base, names[..|names| - 1], beatNames, decode)
    requires Extends(l1, l2, base, names[|names| - 1], beatNames, decode)
    ensures Describes(l2, base, names, beatNames, decode)
  {
    var init := names[..|names| - 1];
    var last := |names| - 1;
    var bi := BeatIndices(names, beatNames);
    var bi0 := BeatIndices(init, beatNames);
    assert bi == bi0 + (if names[last] in beatNames then [last] else []);
    forall i | 0 <= i < |names|
      ensures SpeechLoaded(l2, i, base, names[i], decode)
    {
      if i < last {
        assert init[i] == names[i];
        assert SpeechLoaded(l1, i, base, init[i], decode);
        assert l2.buffers[i] == l1.buffers[i] && l2.formats[i] == l1.formats[i];
      }
    }
    forall k | 0 <= k < |l2.beats|
      ensures VariantsLoaded(l2.beats[k], base, names[bi[k]], l2.formats[bi[k]], decode)
    {
      if k < |l1.beats| {
        assert bi[k] == bi0[k];
        assert init[bi0[k]] == names[bi[k]];
        assert l2.beats[k] == l1.beats[k];
        assert l2.formats[bi[k]] == l1.formats[bi[k]];
      } else {
        assert bi[k] == last;
      }
    }
  }

  /** A successful load yields the catalog `Describes` specifies. */
  lemma {:induction false} LoadedCatalogDescribesNames(base: string, names: seq<string>, beatNames: seq<string>, decode: Decoder)
    ensures LoadLSD(base, names, beatNames, decode).Success? ==>
              Describes(LoadLSD(base, names, beatNames, decode).value, base, names, beatNames, decode)
    decreases |names|
  {
    if |names| > 0 {
      var init := names[..|names| - 1];
      LoadedCatalogDescribesNames(base, init, beatNames, decode);
      var prev := LoadLSD(base, init, beatNames, decode);
      if prev.Success? {
        var r := AddName(base, prev.value, names[|names| - 1], beatNames, decode);
        if r.Success? {
          DescribesExtend(prev.value, r.value, base, names, beatNames, decode);
        }
      }
    }
  }

  /** A loaded catalog has one speech buffer and one format per name, one
      beat list of four buffers per beat-capable name, and is well formed. */
  lemma LoadedCatalogShape(base: string, names: seq<string>, beatNames: seq<string>, decode: Decoder, l: Catalog)
    requires LoadLSD(base, names, beatNames, decode) == Success(l)
    ensures |l.buffers| == |l.formats| == |names|
    ensures |l.beats| == |BeatIndices(names, beatNames)|
    ensures WellFormed(l)
  {
    LoadedCatalogDescribesNames(base, names, beatNames, decode);
    assert forall k :: 0 <= k < |l.beats| ==> |l.beats[k]| == 4;
  }

  // ---------------------------------------------------------------------
  // Accessors

  /** The catalog's sample rate is that of its first speech format; an
      empty catalog has none. */
  function SampleRate(l: Catalog): (rate: int)
    requires |l.formats| > 0
  {
    l.formats[0].sampleRate
  }

  /** A loaded catalog is non-empty exactly when the name list is, and its
      sample rate is the one decoded from the first name's speech file. */
  lemma LoadedSampleRate(base: string, names: seq<string>, beatNames: seq<string>, decode: Decoder, l: Catalog)
    requires LoadLSD(base, names, beatNames, decode) == Success(l)
    ensures |l.formats| > 0 <==> |names| > 0
    ensures |names| > 0 ==> decode(SpeechUrl(base, names[0])).Success?
    ensures |names| > 0 ==> SampleRate(l) == decode(SpeechUrl(base, names[0])).value.format.sampleRate
  {
    LoadedCatalogDescribesNames(base, names, beatNames, decode);
    if |names| > 0 {
      assert SpeechLoaded(l, 0, base, names[0], decode);
    }
  }

  /** A cursor over the whole speech buffer at position `p`. */
  function Speech(l: Catalog, p: nat): (s: StreamSeeker)
    requires p < |l.buffers|
    ensures s.PlaysWhole(l.buffers[p])
  {
    var buffer := l.buffers[p];
    Streamer(buffer, 0, buffer.Len())
  }

  /** A cursor over the whole beat variant `variant` of beat list `p`;
      `variant` stands for the random draw in [0, 4), which every beat list
      of a well-formed catalog can serve. */
  function Beat(l: Catalog, p: nat, variant: nat): (s: StreamSeeker)
    requires WellFormed(l)
    requires p < |l.beats| && variant < 4
    ensures variant < |l.beats[p]|
    ensures s.PlaysWhole(l.beats[p][variant])
  {
    var buffer := l.beats[p][variant];
    Streamer(buffer, 0, buffer.Len())
  }

  // ---------------------------------------------------------------------
  // Selection

  /** What one turn of the play loop starts: a speech cursor and, maybe, a
      beat cursor played alongside it. */
  datatype Selection = Selection(speech: StreamSeeker, beat: Option<StreamSeeker>)

  /** One turn of the play loop for the drawn clip `fileIndex` in
      [0, len(buffers)) and, when a beat is added, the drawn variant. */
  function Select(l: Catalog, fileIndex: nat, variant: nat): (c: Selection)
    requires WellFormed(l)
    requires fileIndex < |l.buffers| && variant < 4
    ensures c.speech.PlaysWhole(l.buffers[fileIndex])
    ensures c.beat.Some? <==> fileIndex < |l.beats|
    ensures c.beat.Some? ==> c.beat.value.PlaysWhole(l.beats[fileIndex][variant])
  {
    if fileIndex < |l.beats| then Selection(Speech(l, fileIndex), Some(Beat(l, fileIndex, variant)))
    else Selection(Speech(l, fileIndex), None)
  }

  /** Every beat-capable name comes before every other name. */
  predicate BeatNamesLead(names: seq<string>, beatNames: seq<string>) {
    forall i, j :: 0 <= i < j < |names| && names[j] in beatNames ==> names[i] in beatNames
  }

  /** Beat list `i` belongs to name `i`, and position `i` has a beat list
      exactly when name `i` is beat-capable: the pairing the play loop's
      test `fileIndex < len(beats)` takes for granted. */
  predicate IndexAligned(names: seq<string>, beatNames: seq<string>) {
    forall i :: 0 <= i < |names| ==>
      && (i < |BeatIndices(names, beatNames)| <==> names[i] in beatNames)
      && (i < |BeatIndices(names, beatNames)| ==> BeatIndices(names, beatNames)[i] == i)
  }

  /** The play loop pairs every clip with its own beats exactly when the
      beat-capable names form a prefix of the name list. */
  lemma {:induction false} IndexAlignedIffBeatNamesLead(names: seq<string>, beatNames: seq<string>)
    ensures IndexAligned(names, beatNames) <==> BeatNamesLead(names, beatNames)
    decreases |names|
  {
    if BeatNamesLead(names, beatNames) && |names| > 0 {
      var init := names[..|names| - 1];
      var last := |names| - 1;
      assert forall j :: 0 <= j < |init| ==> init[j] == names[j];
      assert BeatNamesLead(init, beatNames);
      IndexAlignedIffBeatNamesLead(init, beatNames);
      var bi0 := BeatIndices(init, beatNames);
      var bi := BeatIndices(names, beatNames);
      assert bi == bi0 + (if names[last] in beatNames then [last] else []);
      if names[last] in beatNames {
        assert forall i :: 0 <= i < last ==> init[i] in beatNames;
        if last > 0 {
          assert init[last - 1] in beatNames;
          assert last - 1 < |bi0|;
        }
        assert |bi0| == last;
      }
    }
  }

  /** On a catalog loaded from names whose beat-capable ones come first, the
      play loop adds a beat exactly for beat-capable clips, and that beat is
      the chosen variant of the same name, stored with that name's format. */
  lemma SelectPairsClipWithOwnBeats(l: Catalog, base: string, names: seq<string>, beatNames: seq<string>, decode: Decoder,
                                    fileIndex: nat, variant: nat)
    requires Describes(l, base, names, beatNames, decode)
    requires BeatNamesLead(names, beatNames)
    requires fileIndex < |names| && variant < 4
    ensures WellFormed(l)
    ensures Select(l, fileIndex, variant).beat.Some? <==> names[fileIndex] in beatNames
    ensures Select(l, fileIndex, variant).speech.buffer
         == Buffer(l.formats[fileIndex], decode(SpeechUrl(base, names[fileIndex])).value.frames)
    ensures Select(l, fileIndex, variant).beat.Some? ==>
              VariantLoaded(Select(l, fileIndex, variant).beat.value.buffer, base, names[fileIndex],
                            l.formats[fileIndex], variant + 1, decode)
  {
    assert SpeechLoaded(l, fileIndex, base, names[fileIndex], decode);
    assert forall k :: 0 <= k < |l.beats| ==> |l.beats[k]| == 4;
    assert |l.beats| <= |l.buffers|;
    IndexAlignedIffBeatNamesLead(names, beatNames);
    if fileIndex < |l.beats| {
      assert VariantsLoaded(l.beats[fileIndex], base, names[fileIndex], l.formats[fileIndex], decode);
    }
  }
}
