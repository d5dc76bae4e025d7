/**
 The 4-bit colorizer (LibDmd/Converter/Gray4Colorizer.cs). Its state is the
 active palette and the one output buffer it colorizes every frame into.

 The helpers it calls (FrameUtil.Split4Bit and Checksum, ColorUtil.GetPalette
 and ColorizeFrame, and the palette file's FindPalette and GetPalette) are not
 part of this model: they are passed in as functions, and nothing is assumed
 about them beyond what a lemma states in its requires.
 */
module Gray4Colorizer {
  import opened Common

  /** One bit plane of a frame. */
  type Plane = seq<byte>

  /** The four planes Split4Bit returns for a 4-bit frame. */
  datatype Planes = Planes(p0: Plane, p1: Plane, p2: Plane, p3: Plane) {
    function At(i: nat): Plane
      requires i < 4
    {
      if i == 0 then p0 else if i == 1 then p1 else if i == 2 then p2 else p3
    }
  }

  /** The loaded palette file: palettes by plane checksum, and by index for the side channel. */
  datatype Coloring = Coloring(findPalette: uint32 -> Option<seq<Color>>,
                               paletteAt: uint32 -> Option<seq<Color>>)

  /** The helpers the colorizer calls. */
  datatype Helpers = Helpers(
    split4Bit: (int32, int32, seq<byte>) -> Planes,
    checksum: Plane -> uint32,
    getPalette: (seq<Color>, int) -> seq<Color>,
    colorizeFrame: (int32, int32, seq<byte>, seq<Color>, seq<byte>) -> seq<byte>,
    coloring: Coloring)

  /** Palettes are always expanded to the 16 shades of a 4-bit frame. */
  const PaletteSize: int := 16

  /** Only planes 0, 1 and 2 are checksummed. */
  const ProbedPlanes: nat := 3

  /** The colorizer's fields: its dimensions, the active palette, and the output buffer. */
  datatype Colorizer = Colorizer(width: int32, height: int32, palette: seq<Color>, coloredFrame: seq<byte>)

  /** `new byte[n]` with a negative n throws. */
  datatype Fault = Overflow

  /** The output buffer size, `width * height * 3` in wrapping 32-bit arithmetic. */
  function BufferSize(width: int32, height: int32): int32
  {
    Wrap32(Wrap32(width * height) * 3)
  }

  /** Some palette the colorizer can hold: GetPalette applied to some colours. */
  ghost predicate Installed(h: Helpers, palette: seq<Color>)
  {
    exists colors :: palette == h.getPalette(colors, PaletteSize)
  }

  /** ColorizeFrame writes into the array it is given, so it cannot change its length. */
  ghost predicate WritesInPlace(h: Helpers)
  {
    forall w, hh, f, p, b :: |h.colorizeFrame(w, hh, f, p, b)| == |b|
  }

  /** What every colorizer built by New and changed by its operations satisfies. */
  ghost predicate Valid(h: Helpers, c: Colorizer)
  {
    |c.coloredFrame| == BufferSize(c.width, c.height) && Installed(h, c.palette)
  }

  /**
   The constructor: allocate the zeroed output buffer and install the default
   two-colour palette, black and DarkOrchid, expanded to 16 entries.
   */
  function New(h: Helpers, width: int32, height: int32): (r: Result<Colorizer, Fault>)
    ensures r.Success? <==> BufferSize(width, height) >= 0
    ensures 0 <= width * height * 3 < 0x8000_0000 ==> r.Success? && |r.value.coloredFrame| == width * height * 3
    ensures r.Success? ==>
              && r.value.width == width && r.value.height == height
              && r.value.palette == h.getPalette([Black, DarkOrchid], PaletteSize)
              && (forall i :: 0 <= i < |r.value.coloredFrame| ==> r.value.coloredFrame[i] == 0)
              && Valid(h, r.value)
  {
    var size := BufferSize(width, height);
    NoWrapWhenSmall(width, height);
    if size < 0 then Failure(Overflow)
    else Success(Colorizer(width, height, h.getPalette([Black, DarkOrchid], PaletteSize), Zeros(size)))
  }

  lemma NoWrapWhenSmall(width: int32, height: int32)
    ensures 0 <= width * height * 3 < 0x8000_0000 ==> BufferSize(width, height) == width * height * 3
  {
    var p := width * height;
    if 0 <= p * 3 < 0x8000_0000 {
      assert 0 <= p < 0x8000_0000;
      assert Wrap32(p) == p;
    }
  }

  /** SetPalette: the given colours, expanded to 16 entries, become the active palette. */
  function SetPalette(h: Helpers, c: Colorizer, colors: seq<Color>): (r: Colorizer)
    ensures r.width == c.width && r.height == c.height && r.coloredFrame == c.coloredFrame
    ensures r.palette == h.getPalette(colors, PaletteSize)
  {
    c.(palette := h.getPalette(colors, PaletteSize))
  }

  /** What the palette file holds for plane `i`'s checksum. */
  function Lookup(h: Helpers, planes: Planes, i: nat): Option<seq<Color>>
    requires i < 4
  {
    h.coloring.findPalette(h.checksum(planes.At(i)))
  }

  /** The plane whose checksum matched, and the colours found for it. */
  datatype Match = Match(plane: nat, colors: seq<Color>)

  /**
   The probe loop from plane `i` on: the first of the planes i..2 with a
   palette for its checksum, or none.
   */
  function FirstMatch(h: Helpers, planes: Planes, i: nat): (m: Option<Match>)
    requires i <= ProbedPlanes
    decreases ProbedPlanes - i
    ensures m.Some? ==> && i <= m.value.plane < ProbedPlanes
                        && Lookup(h, planes, m.value.plane) == Some(m.value.colors)
                        && forall j :: i <= j < m.value.plane ==> Lookup(h, planes, j).None?
    ensures m.None? <==> forall j :: i <= j < ProbedPlanes ==> Lookup(h, planes, j).None?
  {
    if i == ProbedPlanes then None
    else match Lookup(h, planes, i)
      case Some(colors) => Some(Match(i, colors))
      case None => FirstMatch(h, planes, i + 1)
  }

  /** Convert's result: the colorizer afterwards and the array it returns. */
  datatype Converted = Converted(state: Colorizer, output: seq<byte>)

  /**
   Convert: split the frame, probe planes 0..2 in order and let the first
   checksum hit replace the palette (a miss keeps it; the masked branch is
   empty), then colorize the whole frame with the active palette into the
   colorizer's one buffer and return that buffer.
   */
  function Convert(h: Helpers, c: Colorizer, frame: seq<byte>): (r: Converted)
    ensures r.output == r.state.coloredFrame
    ensures r.state.width == c.width && r.state.height == c.height
    ensures r.output == h.colorizeFrame(c.width, c.height, frame, r.state.palette, c.coloredFrame)
    ensures var planes := h.split4Bit(c.width, c.height, frame);
            forall k :: 0 <= k < ProbedPlanes && Lookup(h, planes, k).Some?
                        && (forall j :: 0 <= j < k ==> Lookup(h, planes, j).None?)
                        ==> r.state.palette == h.getPalette(Lookup(h, planes, k).value, PaletteSize)
    ensures var planes := h.split4Bit(c.width, c.height, frame);
            (forall k :: 0 <= k < ProbedPlanes ==> Lookup(h, planes, k).None?) ==> r.state.palette == c.palette
  {
    var planes := h.split4Bit(c.width, c.height, frame);
    var c' := match FirstMatch(h, planes, 0)
      case Some(m) => SetPalette(h, c, m.colors)
      case None => c;
    var buffer := h.colorizeFrame(c'.width, c'.height, frame, c'.palette, c'.coloredFrame);
    Converted(c'.(coloredFrame := buffer), buffer)
  }

  /**
   LoadPalette: the side channel. A palette at the index replaces the active
   one; a miss leaves the colorizer exactly as it was.
   */
  function LoadPalette(h: Helpers, c: Colorizer, index: uint32): (r: Colorizer)
    ensures h.coloring.paletteAt(index).Some? ==>
              r == c.(palette := h.getPalette(h.coloring.paletteAt(index).value, PaletteSize))
    ensures h.coloring.paletteAt(index).None? ==> r == c
  {
    match h.coloring.paletteAt(index)
    case Some(colors) => SetPalette(h, c, colors)
    case None => c
  }

  /** Convert gives the same result whatever Split4Bit puts in plane 3. */
  lemma ConvertIgnoresPlane3(h: Helpers, c: Colorizer, frame: seq<byte>, q: Plane)
    ensures var h' := h.(split4Bit := (w: int32, hh: int32, f: seq<byte>) => h.split4Bit(w, hh, f).(p3 := q));
            Convert(h', c, frame) == Convert(h, c, frame)
  {
  }

  /**
   Convert keeps the invariant: the buffer keeps its size and any palette it
   installs comes from GetPalette.
   */
  lemma ConvertKeepsValid(h: Helpers, c: Colorizer, frame: seq<byte>)
    requires WritesInPlace(h) && Valid(h, c)
    ensures Valid(h, Convert(h, c, frame).state)
    ensures |Convert(h, c, frame).output| == BufferSize(c.width, c.height)
  {
    var planes := h.split4Bit(c.width, c.height, frame);
    var r := Convert(h, c, frame);
    match FirstMatch(h, planes, 0)
    case Some(m) =>
      assert r.state.palette == h.getPalette(m.colors, PaletteSize);
    case None =>
      assert r.state.palette == c.palette;
  }

  /** LoadPalette and SetPalette keep the invariant. */
  lemma PaletteChangesKeepValid(h: Helpers, c: Colorizer, index: uint32, colors: seq<Color>)
    requires Valid(h, c)
    ensures Valid(h, LoadPalette(h, c, index))
    ensures Valid(h, SetPalette(h, c, colors))
  {
    assert SetPalette(h, c, colors).palette == h.getPalette(colors, PaletteSize);
    if h.coloring.paletteAt(index).Some? {
      var found := h.coloring.paletteAt(index).value;
      assert LoadPalette(h, c, index).palette == h.getPalette(found, PaletteSize);
    }
  }

  /**
   When several probed planes have palettes, the lowest-numbered one wins:
   Convert installs plane 0's palette whenever plane 0 matches.
   */
  lemma FirstPlaneWins(h: Helpers, c: Colorizer, frame: seq<byte>)
    requires Lookup(h, h.split4Bit(c.width, c.height, frame), 0).Some?
    ensures Convert(h, c, frame).state.palette
            == h.getPalette(Lookup(h, h.split4Bit(c.width, c.height, frame), 0).value, PaletteSize)
  {
  }
}
