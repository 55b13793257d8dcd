/** How one audio file becomes an `Episode`: the relative path, the title
    fallback, the optional tag fields, and the duration and bitrate that are
    only known for MP3 files. The filesystem, the tag reader and the MP3
    decoder are inputs. */
module Metadata {
  import opened Common
  import opened Text
  import opened Paths
  import opened Models

  /** What `os.Stat` says about the file. */
  datatype FileInfo = StatFailed(err: Error) | Info(size: nat, modTime: int)

  /** What the tag reader gets out of the file. */
  datatype TagSource = OpenFailed | ParseFailed | Tags(title: string, artist: string, album: string)

  /** The total duration the MP3 decoder adds up, in seconds. */
  datatype Mp3Duration = DecodeFailed(err: Error) | Decoded(seconds: real)

  /** The title and the optional artist and album read from the tags. */
  datatype TagFields = TagFields(title: string, artist: Option<string>, album: Option<string>)

  /** A trimmed value, absent when nothing but white space is left. */
  function OptionalString(value: string): (r: Option<string>)
    ensures r.None? <==> IsBlank(value)
    ensures r.Some? ==> r.value != "" && TrimSpace(r.value) == r.value
    ensures r.Some? ==> r.value == TrimSpace(value)
  {
    var v := TrimSpace(value);
    TrimSpaceIdempotent(value);
    if v == "" then None else Some(v)
  }

  /** Tags that cannot be opened or parsed give an empty title and no
      artist or album; otherwise every field is trimmed. */
  function ReadTags(source: TagSource): (r: TagFields)
    ensures !source.Tags? ==> r == TagFields("", None, None)
    ensures source.Tags? ==> r.title == TrimSpace(source.title)
                             && r.artist == OptionalString(source.artist)
                             && r.album == OptionalString(source.album)
  {
    match source
    case Tags(title, artist, album) =>
      TagFields(TrimSpace(title), OptionalString(artist), OptionalString(album))
    case _ => TagFields("", None, None)
  }

  /** The base name of `path` without its extension. */
  function Stem(path: string): (r: string)
    ensures HasSuffix(Base(path), Ext(path)) ==> r + Ext(path) == Base(path)
  {
    TrimSuffix(Base(path), Ext(path))
  }

  /** `math.Round` (halves away from zero) on an exact real. */
  function Round(x: real): (r: int)
    ensures x - 1.0 / 2.0 <= r as real <= x + 1.0 / 2.0
    ensures x >= 0.0 ==> x - 1.0 / 2.0 < r as real && r >= 0
    ensures x < 0.0 ==> r as real < x + 1.0 / 2.0 && r <= 0
  {
    if x >= 0.0 then (x + 0.5).Floor else -((-x + 0.5).Floor)
  }

  /** The path recorded for the file: relative to the root when `Rel` can
      say how, otherwise just the base name. */
  function RelativePath(path: string, root: string): (r: string)
    ensures Rel(root, path).Success? ==> r == Rel(root, path).value
    ensures Rel(root, path).Failure? ==> r == Base(path)
  {
    match Rel(root, path)
    case Success(rel) => rel
    case Failure(_) => Base(path)
  }

  /** `BuildEpisode`: fails only when the file cannot be stat'ed. */
  function BuildEpisode(path: string, root: string, info: FileInfo, tags: TagSource, mp3: Mp3Duration)
    : (r: Result<Episode, Error>)
    ensures r.Failure? <==> info.StatFailed?
    ensures r.Failure? ==> r.error == info.err
    ensures r.Success? ==>
      var e := r.value;
      && e.id == e.relativePath == RelativePath(path, root)
      && e.filename == Base(path)
      && e.filesizeBytes == info.size && e.modifiedAt == info.modTime
      && e.title == (if ReadTags(tags).title == "" then Stem(path) else ReadTags(tags).title)
      && e.artist == ReadTags(tags).artist && e.album == ReadTags(tags).album
      && (e.durationSeconds.Some? <==> EqualFold(Ext(path), ".mp3") && mp3.Decoded? && mp3.seconds > 0.0)
      && (e.durationSeconds.Some? ==> e.durationSeconds.value == mp3.seconds)
      && (e.bitrateKbps.Some? ==> e.durationSeconds.Some? && e.bitrateKbps.value > 0)
  {
    match info
    case StatFailed(err) => Failure(err)
    case Info(size, modTime) =>
      var relative := RelativePath(path, root);
      var fields := ReadTags(tags);
      var title := if fields.title == "" then Stem(path) else fields.title;
      var (duration, bitrate) :=
        if EqualFold(Ext(path), ".mp3") && mp3.Decoded? && mp3.seconds > 0.0 then
          var b := Round((size as real * 8.0) / mp3.seconds / 1000.0);
          (Some(mp3.seconds), if b > 0 then Some(b) else None)
        else (None, None);
      Success(Episode(relative, Base(path), relative, title, fields.artist, fields.album,
                      duration, bitrate, size, modTime))
  }

  /** The bitrate is the file size over the duration, in kilobits per
      second, rounded, and is present exactly when that rounds above 0. */
  lemma BitrateOfMp3(path: string, root: string, info: FileInfo, tags: TagSource, mp3: Mp3Duration)
    requires info.Info? && EqualFold(Ext(path), ".mp3") && mp3.Decoded? && mp3.seconds > 0.0
    ensures var e := BuildEpisode(path, root, info, tags, mp3).value;
            var kbps := (info.size as real * 8.0) / mp3.seconds / 1000.0;
            && (e.bitrateKbps.Some? <==> Round(kbps) > 0)
            && (e.bitrateKbps.Some? ==> e.bitrateKbps.value == Round(kbps))
            && (e.bitrateKbps.Some? ==> kbps - 1.0 / 2.0 <= e.bitrateKbps.value as real <= kbps + 1.0 / 2.0)
  {
  }

  /** A file under a sub-directory of the root, with no readable tags: its
      identifier is the path below the root and its title is the file name
      without the extension; as a WAV file it has no duration. */
  lemma FallbackExample(path: string, root: string, size: nat, modTime: int, mp3: Mp3Duration)
    requires root == "/r" && path == "/r/sub/Episode One.wav"
    ensures var r := BuildEpisode(path, root, Info(size, modTime), OpenFailed, mp3);
            && r.Success?
            && r.value.id == "sub/Episode One.wav"
            && r.value.title == "Episode One"
            && r.value.durationSeconds.None? && r.value.bitrateKbps.None?
  {
    ExampleRel(root, path);
    ExampleStem(path);
    assert ReadTags(OpenFailed).title == "";
  }

  lemma ExampleStem(path: string)
    requires path == "/r/sub/Episode One.wav"
    ensures Stem(path) == "Episode One"
    ensures !EqualFold(Ext(path), ".mp3")
  {
    ExampleExt(path);
    ExampleBase(path);
    TrimWavExample("Episode One.wav", ".wav");
  }

  lemma TrimWavExample(name: string, ext: string)
    requires name == "Episode One.wav" && ext == ".wav"
    ensures TrimSuffix(name, ext) == "Episode One"
    ensures !EqualFold(ext, ".mp3")
  {
    assert name[..|name| - |ext|] == "Episode One";
    assert ToLower(ext)[1] == 'w';
  }

  lemma ExampleTargetComponents(q: string, r: string, sub: string, ep: string)
    requires q == "/r/sub/Episode One.wav" && r == "r" && sub == "sub" && ep == "Episode One.wav"
    ensures Components(q) == [r, sub, ep]
  {
    assert [r, sub, ep][1..] == [sub, ep];
    assert Join([sub, ep], "/") == sub + "/" + ep;
    assert q == "/" + Join([r, sub, ep], "/");
    assert IsPlain(r) && IsPlain(sub) && IsPlain(ep);
    ComponentsOfPlain([r, sub, ep]);
  }

  lemma ExampleRootComponents(p: string, r: string)
    requires p == "/r" && r == "r"
    ensures Components(p) == [r]
  {
    assert p == "/" + Join([r], "/");
    assert IsPlain(r);
    ComponentsOfPlain([r]);
  }

  lemma ExampleRel(p: string, q: string)
    requires p == "/r" && q == "/r/sub/Episode One.wav"
    ensures Rel(p, q) == Success("sub/Episode One.wav")
  {
    var r, sub, ep := "r", "sub", "Episode One.wav";
    ExampleTargetComponents(q, r, sub, ep);
    ExampleRootComponents(p, r);
    ExampleRelFromComponents(p, q, r, sub, ep);
    ExampleIdJoin(sub, ep);
  }

  lemma ExampleIdJoin(sub: string, ep: string)
    requires sub == "sub" && ep == "Episode One.wav"
    ensures sub + "/" + ep == "sub/Episode One.wav"
  {
  }

  lemma ExampleRelFromComponents(p: string, q: string, r: string, sub: string, ep: string)
    requires IsRooted(p) && IsRooted(q)
    requires Components(q) == [r, sub, ep]
    requires Components(p) == [r]
    ensures Rel(p, q) == Success(sub + "/" + ep)
  {
    assert Components(q) == Components(p) + [sub, ep];
    RelOfDescendant(p, q, [sub, ep]);
    assert [sub, ep][1..] == [ep];
    assert Join([sub, ep], "/") == sub + "/" + ep;
  }

  lemma ExampleExt(path: string)
    requires path == "/r/sub/Episode One.wav"
    ensures Ext(path) == ".wav"
  {
    var stem, tail := "/r/sub/Episode One.", "wav";
    ExampleExtSplit(path, stem, tail);
    ExtOfPlainTail(stem, tail);
  }

  lemma ExampleExtSplit(path: string, stem: string, tail: string)
    requires path == "/r/sub/Episode One.wav" && stem == "/r/sub/Episode One." && tail == "wav"
    ensures path == stem + tail
  {
  }

  lemma ExampleBase(path: string)
    requires path == "/r/sub/Episode One.wav"
    ensures Base(path) == "Episode One.wav"
  {
    var d, n := "/r/sub", "Episode One.wav";
    assert '/' !in n;
    ExampleBaseSplit(path, d, n);
    BaseOfChild(d, n);
  }

  lemma ExampleBaseSplit(path: string, d: string, n: string)
    requires path == "/r/sub/Episode One.wav" && d == "/r/sub" && n == "Episode One.wav"
    ensures path == d + "/" + n
  {
  }
}
