/** `load_anm_file`, identical in both copies of the importer (importer.py
    and blender_gladius/importer.py): an `.anm` file is the magic string, a
    `<BLL` header (bone count, frame count, frame rate) and, per bone, its
    name followed by one position, rotation and scale per frame.

    Blender's pose bones are an oracle: the set of bone names the armature
    has.  Keys keep the file's values; composing them with the bone's rest
    pose is floating-point work of Blender's math library and is left out. */
module AnimDecoder {
  import opened Base
  import opened Bytes
  import opened Cursor
  import opened Diagnostics
  import Utf8

  /** "ANM1.0" */
  const AnimMagic: Bytes := [0x41, 0x4E, 0x4D, 0x31, 0x2E, 0x30]

  /** `'<BLL'`: bone count, frame count, frame rate. */
  const HeaderFormat: Format := [U8, U32, U32]

  /** Bytes per frame: 3 + 4 + 3 floats. */
  const FrameSize: nat := 40

  /** The files under the data root, by path; a path is there exactly when
      `filepath.exists()` holds. */
  type Disk = map<string, Bytes>

  datatype Header = Header(boneCount: nat, frameCount: nat, framerate: nat)

  function ReadHeader(s: Bytes): (r: Result<Parsed<Header>>)
    ensures r.Ok? <==> |s| >= 9
    ensures r.Err? ==> r.fault == Truncated
    ensures r.Ok? ==> r.value.rest == s[9..]
    ensures r.Ok? ==> r.value.value.boneCount < 0x100 && r.value.value.frameCount < 0x1_0000_0000
  {
    assert Size(HeaderFormat) == 9;
    var h :- ReadStruct(HeaderFormat, s);
    UnpackFits(HeaderFormat, s[..9]);
    assert Pow256(Width(U8)) == 0x100 && Pow256(Width(U32)) == 0x1_0000_0000;
    Ok(Parsed(Header(h.value[0], h.value[1], h.value[2]), h.rest))
  }

  /** One frame of one bone as stored: position, rotation as x, y, z, w,
      and scale. */
  datatype FrameRecord = FrameRecord(position: seq<nat>, rotation: seq<nat>, scale: seq<nat>)

  /** Lines 355-357 (blender_gladius/importer.py lines 249-251). */
  function ReadFrame(s: Bytes): (r: Result<Parsed<FrameRecord>>)
    ensures r.Ok? <==> |s| >= FrameSize
    ensures r.Err? ==> r.fault == Truncated
    ensures r.Ok? ==> r.value.rest == s[FrameSize..]
    ensures r.Ok? ==> |r.value.value.position| == 3 && |r.value.value.rotation| == 4 && |r.value.value.scale| == 3
  {
    assert Size(Floats(3)) == 12 && Size(Floats(4)) == 16;
    var position :- ReadStruct(Floats(3), s);
    var rotation :- ReadStruct(Floats(4), position.rest);
    var scale :- ReadStruct(Floats(3), rotation.rest);
    assert s[12..][16..][12..] == s[FrameSize..];
    Ok(Parsed(FrameRecord(position.value, rotation.value, scale.value), scale.rest))
  }

  /** The bytes taken by `count` frames. */
  function FramesSize(count: nat): nat {
    if count == 0 then 0 else FrameSize + FramesSize(count - 1)
  }

  /** One frame, then the other `count - 1`. */
  lemma {:induction false} FramesSizeStep(s: Bytes, count: nat)
    requires count > 0
    ensures FramesSize(count) == FrameSize + FramesSize(count - 1)
    ensures |s| >= FramesSize(count) ==> s[FrameSize..][FramesSize(count - 1)..] == s[FramesSize(count)..]
  {
  }

  lemma {:induction false} FramesCons(frame: FrameRecord, more: seq<FrameRecord>)
    requires |frame.rotation| == 4
    requires forall j :: 0 <= j < |more| ==> |more[j].rotation| == 4
    ensures forall j :: 0 <= j < |more| + 1 ==> |([frame] + more)[j].rotation| == 4
  {
    forall j | 0 < j < |more| + 1 ensures |([frame] + more)[j].rotation| == 4 {
      assert ([frame] + more)[j] == more[j - 1];
    }
  }

  /** `for frame in range(num_frames)`: the frames of one bone. */
  function ReadFrames(s: Bytes, count: nat): (r: Result<Parsed<seq<FrameRecord>>>)
    ensures r.Ok? <==> |s| >= FramesSize(count)
    ensures r.Err? ==> r.fault == Truncated
    ensures r.Ok? ==> |r.value.value| == count && r.value.rest == s[FramesSize(count)..]
    ensures r.Ok? ==> forall j :: 0 <= j < count ==> |r.value.value[j].rotation| == 4
  {
    if count == 0 then Ok(Parsed([], s))
    else
      match ReadFrame(s)
      case Err(f) => Err(f)
      case Ok(frame) =>
        FramesSizeStep(s, count);
        match ReadFrames(frame.rest, count - 1)
        case Err(f) => Err(f)
        case Ok(more) =>
          FramesCons(frame.value, more.value);
          Ok(Parsed([frame.value] + more.value, more.rest))
  }

  /** A keyframe of a known bone: the frame number and the values Blender
      receives, with the rotation reordered to w, x, y, z as
      `Quaternion([rot[3], *rot[:3]])` does. */
  datatype Key = Key(frame: nat, position: seq<nat>, rotation: seq<nat>, scale: seq<nat>)

  function WFirst(rotation: seq<nat>): (q: seq<nat>)
    requires |rotation| == 4
    ensures |q| == 4 && q[0] == rotation[3] && q[1..] == rotation[..3]
  {
    [rotation[3]] + rotation[..3]
  }

  /** The keys of frames `first`, `first + 1`, ... */
  function Keys(frames: seq<FrameRecord>, first: nat): (keys: seq<Key>)
    requires forall j :: 0 <= j < |frames| ==> |frames[j].rotation| == 4
    ensures |keys| == |frames|
    ensures forall j :: 0 <= j < |frames| ==>
              keys[j] == Key(first + j, frames[j].position, WFirst(frames[j].rotation), frames[j].scale)
  {
    if |frames| == 0 then []
    else
      var f := frames[0];
      [Key(first, f.position, WFirst(f.rotation), f.scale)] + Keys(frames[1..], first + 1)
  }

  /** One bone of the file: a known bone gets one key per frame, an unknown
      one none. */
  datatype Track = Track(bone: Bytes, known: bool, keys: seq<Key>)

  /** The track made of a bone's frames. */
  function MakeTrack(bone: Bytes, skeleton: set<Bytes>, frames: seq<FrameRecord>): (t: Track)
    requires forall j :: 0 <= j < |frames| ==> |frames[j].rotation| == 4
    ensures t.bone == bone && (t.known <==> bone in skeleton)
    ensures t.known ==> t.keys == Keys(frames, 0)
    ensures !t.known ==> t.keys == []
  {
    var known := bone in skeleton;
    Track(bone, known, if known then Keys(frames, 0) else [])
  }

  /** A track is known exactly when its bone is in the skeleton, and then
      has one key per frame. */
  predicate TrackShaped(t: Track, skeleton: set<Bytes>, frames: nat) {
    (t.known <==> t.bone in skeleton) && |t.keys| == (if t.known then frames else 0)
  }

  /** The warning line 353 appends for every unknown bone, in bone order. */
  function Warnings(path: string, tracks: seq<Track>): (ms: seq<Diagnostic>)
    ensures forall m :: m in ms ==> m.UnknownBone? && m.path == path
  {
    if |tracks| == 0 then []
    else (if tracks[0].known then [] else [UnknownBone(path, tracks[0].bone)]) + Warnings(path, tracks[1..])
  }

  lemma {:induction false} TracksCons(path: string, skeleton: set<Bytes>, frames: nat, track: Track, more: seq<Track>)
    requires TrackShaped(track, skeleton, frames)
    requires forall k :: 0 <= k < |more| ==> TrackShaped(more[k], skeleton, frames)
    ensures forall k :: 0 <= k < |more| + 1 ==> TrackShaped(([track] + more)[k], skeleton, frames)
    ensures Warnings(path, [track] + more)
         == (if track.bone in skeleton then [] else [UnknownBone(path, track.bone)]) + Warnings(path, more)
  {
    var tracks := [track] + more;
    assert tracks[0] == track && tracks[1..] == more;
    forall k | 0 < k < |more| + 1 ensures TrackShaped(tracks[k], skeleton, frames) {
      assert tracks[k] == more[k - 1];
    }
  }

  /** Lines 337-363 from the first bone on: `count` bones of `frames`
      frames.  The warning for an unknown bone is appended before its frames
      are read, so it stays when they are cut short. */
  function ReadTracks(s: Bytes, path: string, skeleton: set<Bytes>, count: nat, frames: nat)
    : (r: Outcome<Parsed<seq<Track>>>)
    ensures r.result.Ok? ==> |r.result.value.value| == count
    ensures r.result.Ok? ==> r.messages == Warnings(path, r.result.value.value)
    ensures r.result.Ok? ==> forall k :: 0 <= k < count ==> TrackShaped(r.result.value.value[k], skeleton, frames)
    ensures forall m :: m in r.messages ==> m.UnknownBone? && m.path == path && m.bone !in skeleton
    ensures r.result.Ok? ==> |r.result.value.rest| <= |s|
    decreases count
  {
    if count == 0 then Outcome([], Ok(Parsed([], s)))
    else
      match ReadStr(s)
      case Err(f) => Outcome([], Err(f))
      case Ok(name) =>
        var warn := if name.value in skeleton then [] else [UnknownBone(path, name.value)];
        match ReadFrames(name.rest, frames)
        case Err(f) => Outcome(warn, Err(f))
        case Ok(read) =>
          var track := MakeTrack(name.value, skeleton, read.value);
          var more := ReadTracks(read.rest, path, skeleton, count - 1, frames);
          if more.result.Err? then Outcome(warn + more.messages, Err(more.result.fault))
          else
            TracksCons(path, skeleton, frames, track, more.result.value.value);
            Outcome(warn + more.messages, Ok(Parsed([track] + more.result.value.value, more.result.value.rest)))
  }

  /** The Blender action an animation file becomes. */
  datatype Action = Action(name: string, frameStart: int, frameEnd: int, tracks: seq<Track>)

  /** `load_anm_file(name, filepath)`: a missing file only warns; otherwise
      the magic is checked, the header read and every bone's frames
      consumed.  The result is `None` when the file is missing. */
  function LoadAnm(name: string, path: string, disk: Disk, skeleton: set<Bytes>): (r: Outcome<Option<Action>>)
    ensures path !in disk ==> r == Outcome([MissingFile(path)], Ok(None))
    ensures path in disk && ExpectStr(disk[path], AnimMagic).Err? ==>
              r == Outcome([], Err(ExpectStr(disk[path], AnimMagic).fault))
    ensures path in disk ==> forall m :: m in r.messages ==> m.UnknownBone? && m.path == path && m.bone !in skeleton
    ensures path in disk && r.result.Ok? ==>
              && r.result.value.Some?
              && r.result.value.value.name == name
              && r.result.value.value.frameStart == 0
              && r.messages == Warnings(path, r.result.value.value.tracks)
    ensures forall m :: m in r.messages ==> m.Severity() == Warning
  {
    if path !in disk then Outcome([MissingFile(path)], Ok(None))
    else
      var data := disk[path];
      match ExpectStr(data, AnimMagic)
      case Err(f) => Outcome([], Err(f))
      case Ok(afterMagic) =>
        match ReadHeader(afterMagic)
        case Err(f) => Outcome([], Err(f))
        case Ok(header) =>
          var h := header.value;
          var tracks := ReadTracks(header.rest, path, skeleton, h.boneCount, h.frameCount);
          var result := if tracks.result.Err? then Err(tracks.result.fault)
                        else Ok(Some(Action(name, 0, h.frameCount - 1, tracks.result.value.value)));
          Outcome(tracks.messages, result)
  }

  // ---------------------------------------------------------------------
  // Writing a file, to state what a well-formed file decodes to.

  datatype TrackRecord = TrackRecord(bone: Bytes, frames: seq<FrameRecord>)

  predicate FrameFits(f: FrameRecord) {
    Fits(Floats(3), f.position) && Fits(Floats(4), f.rotation) && Fits(Floats(3), f.scale)
  }

  /** A bone name `read_str` gives back and frames that fit their floats. */
  predicate TrackFits(t: TrackRecord, frameCount: nat) {
    && 0 !in t.bone && Utf8.Valid(t.bone)
    && |t.frames| == frameCount
    && forall j :: 0 <= j < frameCount ==> FrameFits(t.frames[j])
  }

  predicate Writable(framerate: nat, frameCount: nat, tracks: seq<TrackRecord>) {
    && |tracks| < 0x100 && frameCount < 0x1_0000_0000 && framerate < 0x1_0000_0000
    && forall k :: 0 <= k < |tracks| ==> TrackFits(tracks[k], frameCount)
  }

  /** The frames of a fitting track have four rotation values each. */
  lemma {:induction false} TrackFrames(t: TrackRecord, frameCount: nat)
    requires TrackFits(t, frameCount)
    ensures forall j :: 0 <= j < |t.frames| ==> FrameFits(t.frames[j]) && |t.frames[j].rotation| == 4
  {
  }

  function EncodeFrame(f: FrameRecord): (bs: Bytes)
    requires FrameFits(f)
  {
    Pack(Floats(3), f.position) + Pack(Floats(4), f.rotation) + Pack(Floats(3), f.scale)
  }

  function EncodeFrames(fs: seq<FrameRecord>): Bytes
    requires forall j :: 0 <= j < |fs| ==> FrameFits(fs[j])
  {
    if |fs| == 0 then [] else EncodeFrame(fs[0]) + EncodeFrames(fs[1..])
  }

  function EncodeTracks(ts: seq<TrackRecord>, frameCount: nat): Bytes
    requires forall k :: 0 <= k < |ts| ==> TrackFits(ts[k], frameCount)
  {
    if |ts| == 0 then []
    else
      assert TrackFits(ts[0], frameCount);
      ts[0].bone + [0] + EncodeFrames(ts[0].frames) + EncodeTracks(ts[1..], frameCount)
  }

  function EncodeAnim(framerate: nat, frameCount: nat, tracks: seq<TrackRecord>): Bytes
    requires Writable(framerate, frameCount, tracks)
  {
    assert Fits(HeaderFormat, [|tracks|, frameCount, framerate]) by {
      assert Pow256(Width(U8)) == 0x100 && Pow256(Width(U32)) == 0x1_0000_0000;
    }
    AnimMagic + [0] + Pack(HeaderFormat, [|tracks|, frameCount, framerate]) + EncodeTracks(tracks, frameCount)
  }

  /** The tracks a skeleton makes of the file's bones. */
  function Expected(tracks: seq<TrackRecord>, skeleton: set<Bytes>, frameCount: nat): (ts: seq<Track>)
    requires forall k :: 0 <= k < |tracks| ==> TrackFits(tracks[k], frameCount)
    ensures |ts| == |tracks|
  {
    if |tracks| == 0 then []
    else
      assert TrackFits(tracks[0], frameCount);
      TrackFrames(tracks[0], frameCount);
      [MakeTrack(tracks[0].bone, skeleton, tracks[0].frames)] + Expected(tracks[1..], skeleton, frameCount)
  }

  lemma {:induction false} ReadFrameOfEncoded(f: FrameRecord, rest: Bytes)
    requires FrameFits(f)
    ensures ReadFrame(EncodeFrame(f) + rest) == Ok(Parsed(f, rest))
  {
    var a := Pack(Floats(3), f.position);
    var b := Pack(Floats(4), f.rotation);
    var c := Pack(Floats(3), f.scale);
    assert EncodeFrame(f) + rest == a + (b + (c + rest));
    ReadStructOfPack(Floats(3), f.position, b + (c + rest));
    ReadStructOfPack(Floats(4), f.rotation, c + rest);
    ReadStructOfPack(Floats(3), f.scale, rest);
  }

  /** A frame followed by `n` more frames is `n + 1` frames. */
  lemma {:induction false} ReadFramesStep(s: Bytes, f: FrameRecord, t: Bytes, fs: seq<FrameRecord>, rest: Bytes)
    requires ReadFrame(s) == Ok(Parsed(f, t))
    requires ReadFrames(t, |fs|) == Ok(Parsed(fs, rest))
    ensures ReadFrames(s, |fs| + 1) == Ok(Parsed([f] + fs, rest))
  {
  }

  lemma {:induction false} ReadFramesOfEncoded(fs: seq<FrameRecord>, rest: Bytes)
    requires forall j :: 0 <= j < |fs| ==> FrameFits(fs[j])
    ensures ReadFrames(EncodeFrames(fs) + rest, |fs|) == Ok(Parsed(fs, rest))
  {
    if |fs| > 0 {
      var s := EncodeFrames(fs) + rest;
      var tail := EncodeFrames(fs[1..]) + rest;
      assert EncodeFrames(fs) == EncodeFrame(fs[0]) + EncodeFrames(fs[1..]);
      AppendAssoc(EncodeFrame(fs[0]), EncodeFrames(fs[1..]), rest);
      ReadFrameOfEncoded(fs[0], tail);
      ReadFramesOfEncoded(fs[1..], rest);
      ReadFramesStep(s, fs[0], tail, fs[1..], rest);
      HeadTail(fs);
    }
  }

  lemma {:induction false} ReadTracksOfEncoded(path: string, skeleton: set<Bytes>, frameCount: nat,
                                               tracks: seq<TrackRecord>, rest: Bytes)
    requires forall k :: 0 <= k < |tracks| ==> TrackFits(tracks[k], frameCount)
    ensures var r := ReadTracks(EncodeTracks(tracks, frameCount) + rest, path, skeleton, |tracks|, frameCount);
            var ts := Expected(tracks, skeleton, frameCount);
            r == Outcome(Warnings(path, ts), Ok(Parsed(ts, rest)))
  {
    if |tracks| > 0 {
      var t := tracks[0];
      assert TrackFits(t, frameCount);
      TrackFrames(t, frameCount);
      var more := EncodeTracks(tracks[1..], frameCount) + rest;
      var framesAndMore := EncodeFrames(t.frames) + more;
      EncodeTracksFront(tracks, frameCount, rest);
      ReadStrOfTerminated(t.bone, framesAndMore);
      ReadFramesOfEncoded(t.frames, more);
      ReadTracksOfEncoded(path, skeleton, frameCount, tracks[1..], rest);
      ReadTracksCons(EncodeTracks(tracks, frameCount) + rest, path, skeleton, |tracks|, frameCount,
                     t.bone, framesAndMore, t.frames, more, Expected(tracks[1..], skeleton, frameCount), rest);
    } else {
      assert EncodeTracks(tracks, frameCount) + rest == rest;
    }
  }

  /** An encoded bone list followed by `rest` starts with its first bone's
      name, terminator and frames. */
  lemma {:induction false} EncodeTracksFront(tracks: seq<TrackRecord>, frameCount: nat, rest: Bytes)
    requires |tracks| > 0
    requires forall k :: 0 <= k < |tracks| ==> TrackFits(tracks[k], frameCount)
    ensures EncodeTracks(tracks, frameCount) + rest ==
            tracks[0].bone + [0] + (EncodeFrames(tracks[0].frames) + (EncodeTracks(tracks[1..], frameCount) + rest))
  {
    assert TrackFits(tracks[0], frameCount);
    var head := tracks[0].bone + [0];
    var frames := EncodeFrames(tracks[0].frames);
    var tail := EncodeTracks(tracks[1..], frameCount);
    assert EncodeTracks(tracks, frameCount) == head + frames + tail;
    AppendAssoc(head + frames, tail, rest);
    AppendAssoc(head, frames, tail + rest);
  }

  /** One unfolding of `ReadTracks` once the first bone's name and frames
      are known and the other bones read back. */
  lemma {:induction false} ReadTracksCons(s: Bytes, path: string, skeleton: set<Bytes>, count: nat, frames: nat,
                                          name: Bytes, mid: Bytes, fs: seq<FrameRecord>, t: Bytes,
                                          ts: seq<Track>, rest: Bytes)
    requires count > 0
    requires ReadStr(s) == Ok(Parsed(name, mid))
    requires ReadFrames(mid, frames) == Ok(Parsed(fs, t))
    requires ReadTracks(t, path, skeleton, count - 1, frames) == Outcome(Warnings(path, ts), Ok(Parsed(ts, rest)))
    ensures var track := MakeTrack(name, skeleton, fs);
            ReadTracks(s, path, skeleton, count, frames)
            == Outcome(Warnings(path, [track] + ts), Ok(Parsed([track] + ts, rest)))
  {
    var track := MakeTrack(name, skeleton, fs);
    TracksCons(path, skeleton, frames, track, ts);
  }

  /** A well-formed file decodes to its bones in order: every known bone
      with one key per frame, every unknown one with a warning and no keys,
      and the frame range `0 .. num_frames - 1`.  Bytes after the last bone
      are not read. */
  lemma {:induction false} LoadAnmOfEncoded(name: string, path: string, disk: Disk, skeleton: set<Bytes>,
                         framerate: nat, frameCount: nat, tracks: seq<TrackRecord>, rest: Bytes)
    requires Writable(framerate, frameCount, tracks)
    requires path in disk && disk[path] == EncodeAnim(framerate, frameCount, tracks) + rest
    ensures var ts := Expected(tracks, skeleton, frameCount);
            LoadAnm(name, path, disk, skeleton)
            == Outcome(Warnings(path, ts), Ok(Some(Action(name, 0, frameCount - 1, ts))))
  {
    var body := EncodeTracks(tracks, frameCount) + rest;
    var data := disk[path];
    assert data == AnimMagic + [0] + Pack(HeaderFormat, [|tracks|, frameCount, framerate]) + body;
    HeaderOfEncoded(|tracks|, frameCount, framerate, body);
    ReadTracksOfEncoded(path, skeleton, frameCount, tracks, rest);
  }

  /** The magic and the header of a written file read back. */
  lemma {:induction false} HeaderOfEncoded(boneCount: nat, frameCount: nat, framerate: nat, body: Bytes)
    requires boneCount < 0x100 && frameCount < 0x1_0000_0000 && framerate < 0x1_0000_0000
    ensures Fits(HeaderFormat, [boneCount, frameCount, framerate])
    ensures var header := Pack(HeaderFormat, [boneCount, frameCount, framerate]);
            && ExpectStr(AnimMagic + [0] + header + body, AnimMagic) == Ok(header + body)
            && ReadHeader(header + body) == Ok(Parsed(Header(boneCount, frameCount, framerate), body))
  {
    var values := [boneCount, frameCount, framerate];
    assert Fits(HeaderFormat, values) by {
      assert Pow256(Width(U8)) == 0x100 && Pow256(Width(U32)) == 0x1_0000_0000;
    }
    var header := Pack(HeaderFormat, values);
    assert AnimMagic + [0] + header + body == AnimMagic + [0] + (header + body);
    assert 0 !in AnimMagic && Utf8.Valid(AnimMagic) by {
      Utf8.AsciiIsValid(AnimMagic);
    }
    ReadStrOfTerminated(AnimMagic, header + body);
    ReadStructOfPack(HeaderFormat, values, body);
  }
}
