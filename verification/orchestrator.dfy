/** The synthesis request handler (`tts_api` in main.py): sanitize, chunk,
    synthesize one temporary file per chunk, concatenate the files in chunk
    order into the final file, then delete the chunk files. The speech
    engine, the audio decoder and the file system are opaque: the engine is a
    function from (text, voice) to audio samples, and the file system is a
    map from file names to the audio they hold. */
module Orchestrator {
  import opened Seqs
  import opened CharClasses
  import opened Sanitizer
  import opened Chunker
  import opened FileNames

  /** `static_voice`. */
  const Voice: string := "en-US-JennyNeural"

  /** The default `max_words` of `split_text`, which the handler relies on. */
  const DefaultMaxWords: nat := 50

  /** The chunks the handler synthesizes: the text sanitized with the
      default tables, split into groups of at most 50 words. */
  function TtsChunks(text: string, cls: CharClass): seq<string> {
    SplitText(Clean(text, DefaultAllowed, DefaultSpoken, cls), DefaultMaxWords, cls.isSpace)
  }

  /** A request makes no engine call, and exports empty audio, exactly when
      its sanitized text is blank. */
  lemma TtsChunksEmptyIff(text: string, cls: CharClass)
    ensures TtsChunks(text, cls) == [] <==>
      forall i :: 0 <= i < |Clean(text, DefaultAllowed, DefaultSpoken, cls)| ==>
        cls.isSpace(Clean(text, DefaultAllowed, DefaultSpoken, cls)[i])
  {
    var cleaned := Clean(text, DefaultAllowed, DefaultSpoken, cls);
    SplitTextEmptyIff(cleaned, DefaultMaxWords, cls.isSpace);
    if TtsChunks(text, cls) != [] {
      var i :| 0 <= i < |cleaned| && !cls.isSpace(cleaned[i]);
      assert !cls.isSpace(Clean(text, DefaultAllowed, DefaultSpoken, cls)[i]);
    }
  }

  /** What the engine renders for each chunk with the fixed voice. */
  function Synthesized<S>(chunks: seq<string>, engine: (string, string) -> seq<S>): seq<seq<S>> {
    seq(|chunks|, i requires 0 <= i < |chunks| => engine(chunks[i], Voice))
  }

  /** The observable outcome of one request: the texts sent to the engine,
      the temporary file list, the combined audio, the final file name and
      the file system afterwards. */
  datatype TtsRun<S> = TtsRun(
    engineCalls: seq<string>,
    tempFiles: seq<string>,
    combined: seq<S>,
    finalName: string,
    files: map<string, seq<S>>)

  /** One `/tts/` request, from the text to the exported final file. */
  method TtsApi<S>(text: string, cls: CharClass, base: string, engine: (string, string) -> seq<S>,
                   files0: map<string, seq<S>>)
    returns (run: TtsRun<S>)
    // one engine call per chunk, in chunk order
    ensures run.engineCalls == TtsChunks(text, cls)
    // the temporary files are `<base>_0.mp3`, ..., `<base>_<k-1>.mp3`
    ensures run.tempFiles == ChunkFileNames(base, |TtsChunks(text, cls)|)
    // the result is the chunks' audio concatenated in list order
    ensures run.combined == Flatten(Synthesized(TtsChunks(text, cls), engine))
    ensures run.finalName == FinalFileName(base)
    ensures run.finalName in run.files && run.files[run.finalName] == run.combined
    // every temporary file is gone, and no other file was touched
    ensures forall f :: f in run.tempFiles ==> f !in run.files
    ensures forall f :: f !in run.tempFiles && f != run.finalName ==>
      (f in run.files <==> f in files0) && (f in run.files ==> run.files[f] == files0[f])
  {
    var cleaned := CleanText(text, DefaultAllowed, DefaultSpoken, cls);
    var chunks := SplitTextLoop(cleaned, DefaultMaxWords, cls.isSpace);
    var calls, tempFiles, fs := SynthesizeChunks(chunks, base, engine, files0);
    assert Contents(fs, tempFiles) == Synthesized(chunks, engine);
    var combined := CombineFiles(tempFiles, fs);

    var finalName := FinalFileName(base);
    forall k | 0 <= k < |tempFiles|
      ensures tempFiles[k] != finalName
    {
      FinalFileNameNotChunk(base, k);
    }
    fs := fs[finalName := combined];

    ChunkFileNamesUnique(base, |chunks|);
    fs := RemoveFiles(tempFiles, fs);
    run := TtsRun(calls, tempFiles, combined, finalName, fs);
  }

  /** The first loop of the handler: one engine call and one file
      `<base>_<idx>.mp3` per chunk, names collected in chunk order. Only those
      files change. */
  method SynthesizeChunks<S>(chunks: seq<string>, base: string, engine: (string, string) -> seq<S>,
                             files0: map<string, seq<S>>)
    returns (calls: seq<string>, tempFiles: seq<string>, fs: map<string, seq<S>>)
    ensures calls == chunks
    ensures tempFiles == ChunkFileNames(base, |chunks|)
    ensures forall k :: 0 <= k < |chunks| ==> tempFiles[k] in fs && fs[tempFiles[k]] == engine(chunks[k], Voice)
    ensures forall f :: f !in tempFiles ==> (f in fs <==> f in files0) && (f in fs ==> fs[f] == files0[f])
  {
    fs := files0;
    tempFiles := [];
    calls := [];
    var idx := 0;
    while idx < |chunks|
      invariant 0 <= idx <= |chunks|
      invariant tempFiles == ChunkFileNames(base, idx)
      invariant calls == chunks[..idx]
      invariant forall k :: 0 <= k < idx ==> tempFiles[k] in fs && fs[tempFiles[k]] == engine(chunks[k], Voice)
      invariant forall f :: f !in tempFiles ==> (f in fs <==> f in files0) && (f in fs ==> fs[f] == files0[f])
    {
      var name := ChunkFileName(base, idx);
      forall k | 0 <= k < idx
        ensures tempFiles[k] != name
      {
        ChunkFileNamesDistinct(base, k, idx);
      }
      calls := calls + [chunks[idx]];
      fs := fs[name := engine(chunks[idx], Voice)];
      tempFiles := tempFiles + [name];
      idx := idx + 1;
    }
    assert calls == chunks[..idx];
  }

  /** The audio held by each named file, in list order. */
  function Contents<S>(fs: map<string, seq<S>>, names: seq<string>): seq<seq<S>>
    requires forall k :: 0 <= k < |names| ==> names[k] in fs
  {
    seq(|names|, k requires 0 <= k < |names| => fs[names[k]])
  }

  /** The second loop: decode each file in list order and append it to an
      initially empty segment. Every file it reads exists. */
  method CombineFiles<S>(names: seq<string>, fs: map<string, seq<S>>) returns (combined: seq<S>)
    requires forall k :: 0 <= k < |names| ==> names[k] in fs
    ensures combined == Flatten(Contents(fs, names))
  {
    ghost var audio := Contents(fs, names);
    combined := [];
    var j := 0;
    while j < |names|
      invariant 0 <= j <= |names|
      invariant combined == Flatten(audio[..j])
    {
      var segment := fs[names[j]];
      FlattenAppend(audio[..j], segment);
      assert audio[..j + 1] == audio[..j] + [segment];
      combined := combined + segment;
      j := j + 1;
    }
    assert audio[..j] == audio;
  }

  /** No name occurs twice. */
  predicate Unique(names: seq<string>) {
    forall a, b :: 0 <= a < b < |names| ==> names[a] != names[b]
  }

  lemma ChunkFileNamesUnique(base: string, k: nat)
    ensures Unique(ChunkFileNames(base, k))
  {
    var names := ChunkFileNames(base, k);
    forall a, b | 0 <= a < b < |names|
      ensures names[a] != names[b]
    {
      ChunkFileNamesDistinct(base, a, b);
    }
  }

  /** The clean-up loop: `os.remove` on each name in turn. Removing a
      missing file would raise, so every name must exist when its turn
      comes, which holds because the names are distinct. */
  method RemoveFiles<S>(names: seq<string>, fs0: map<string, seq<S>>) returns (fs: map<string, seq<S>>)
    requires Unique(names)
    requires forall k :: 0 <= k < |names| ==> names[k] in fs0
    ensures forall f :: f in names ==> f !in fs
    ensures forall f :: f !in names ==> (f in fs <==> f in fs0) && (f in fs ==> fs[f] == fs0[f])
  {
    fs := fs0;
    var r := 0;
    while r < |names|
      invariant 0 <= r <= |names|
      invariant forall k :: r <= k < |names| ==> names[k] in fs
      invariant forall k :: 0 <= k < r ==> names[k] !in fs
      invariant forall f :: f !in names ==> (f in fs <==> f in fs0) && (f in fs ==> fs[f] == fs0[f])
    {
      var f := names[r];
      assert f in fs;
      fs := fs - {f};
      r := r + 1;
    }
  }
}
