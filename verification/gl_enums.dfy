/**
 * The `uint8_t` enumerations of klgl's OpenGL wrapper and their translation
 * to OpenGL constants by `OpenGl::ConvertEnum`. An enumeration value is its
 * underlying byte, so the `default:` branches, which also catch `Max` and any
 * other byte, are modelled as written.
 */
module GlEnums {
  import opened Base

  // `GlPolygonMode`
  const PolygonPoint: byte := 0
  const PolygonLine: byte := 1
  const PolygonFill: byte := 2
  const PolygonMax: byte := 3

  // `GlTextureWrap`
  const WrapS: byte := 0
  const WrapT: byte := 1
  const WrapR: byte := 2
  const WrapMax: byte := 3

  // `GlTextureWrapMode`
  const ModeClampToEdge: byte := 0
  const ModeClampToBorder: byte := 1
  const ModeMirroredRepeat: byte := 2
  const ModeRepeat: byte := 3
  const ModeMirrorClampToEdge: byte := 4
  const WrapModeMax: byte := 5

  // `GlTextureFilter`
  const FilterNearest: byte := 0
  const FilterLinear: byte := 1
  const FilterNearestMipmapNearest: byte := 2
  const FilterLinearMipmapNearest: byte := 3
  const FilterNearestMipmapLinear: byte := 4
  const FilterLinearMipmapLinear: byte := 5
  const FilterMax: byte := 6

  // OpenGL constants, with the values of the OpenGL API headers.
  const GL_POINT: nat := 0x1B00
  const GL_LINE: nat := 0x1B01
  const GL_FILL: nat := 0x1B02
  const GL_TEXTURE_WRAP_S: nat := 0x2802
  const GL_TEXTURE_WRAP_T: nat := 0x2803
  const GL_TEXTURE_WRAP_R: nat := 0x8072
  const GL_CLAMP_TO_EDGE: nat := 0x812F
  const GL_CLAMP_TO_BORDER: nat := 0x812D
  const GL_MIRRORED_REPEAT: nat := 0x8370
  const GL_REPEAT: nat := 0x2901
  const GL_MIRROR_CLAMP_TO_EDGE: nat := 0x8743
  const GL_NEAREST: nat := 0x2600
  const GL_LINEAR: nat := 0x2601
  const GL_NEAREST_MIPMAP_NEAREST: nat := 0x2700
  const GL_LINEAR_MIPMAP_NEAREST: nat := 0x2701
  const GL_NEAREST_MIPMAP_LINEAR: nat := 0x2702
  const GL_LINEAR_MIPMAP_LINEAR: nat := 0x2703

  /** `ConvertEnum(GlPolygonMode)`: any value but `Point` and `Line` is `GL_FILL`. */
  function ConvertPolygonMode(m: byte): (g: nat)
    ensures g in {GL_POINT, GL_LINE, GL_FILL}
  {
    if m == PolygonPoint then GL_POINT
    else if m == PolygonLine then GL_LINE
    else GL_FILL
  }

  /** The polygon mode an OpenGL constant stands for. */
  function PolygonModeOf(g: nat): Option<byte>
  {
    if g == GL_POINT then Some(PolygonPoint)
    else if g == GL_LINE then Some(PolygonLine)
    else if g == GL_FILL then Some(PolygonFill)
    else None
  }

  /** Each polygon mode below `Max` converts to its own constant and back. */
  lemma PolygonModeRoundTrip(m: byte, g: nat)
    requires m < PolygonMax
    ensures PolygonModeOf(ConvertPolygonMode(m)) == Some(m)
    ensures PolygonModeOf(g) == Some(m) <==> ConvertPolygonMode(m) == g
  {
  }

  /** `ConvertEnum(GlTextureWrap)` as written: `R`, like any value but `S`, gives `GL_TEXTURE_WRAP_T`. */
  function ConvertWrapAsWritten(w: byte): (g: nat)
    ensures g in {GL_TEXTURE_WRAP_S, GL_TEXTURE_WRAP_T}
  {
    if w == WrapS then GL_TEXTURE_WRAP_S
    else if w == WrapT then GL_TEXTURE_WRAP_T
    else GL_TEXTURE_WRAP_T
  }

  /** As written, wrapping along R sets the T coordinate's wrap mode: two axes share one constant. */
  lemma WrapRIsT()
    ensures ConvertWrapAsWritten(WrapR) == ConvertWrapAsWritten(WrapT) == GL_TEXTURE_WRAP_T
    ensures forall w: byte :: ConvertWrapAsWritten(w) != GL_TEXTURE_WRAP_R
  {
  }

  /** `ConvertEnum(GlTextureWrap)` with `R` mapped to `GL_TEXTURE_WRAP_R`. */
  function ConvertWrap(w: byte): (g: nat)
    ensures g in {GL_TEXTURE_WRAP_S, GL_TEXTURE_WRAP_T, GL_TEXTURE_WRAP_R}
    ensures w != WrapR ==> g == ConvertWrapAsWritten(w) || w >= WrapMax
  {
    if w == WrapS then GL_TEXTURE_WRAP_S
    else if w == WrapT then GL_TEXTURE_WRAP_T
    else GL_TEXTURE_WRAP_R
  }

  function WrapOf(g: nat): Option<byte>
  {
    if g == GL_TEXTURE_WRAP_S then Some(WrapS)
    else if g == GL_TEXTURE_WRAP_T then Some(WrapT)
    else if g == GL_TEXTURE_WRAP_R then Some(WrapR)
    else None
  }

  /** Corrected, each texture axis converts to its own constant and back. */
  lemma WrapRoundTrip(w: byte, g: nat)
    requires w < WrapMax
    ensures WrapOf(ConvertWrap(w)) == Some(w)
    ensures WrapOf(g) == Some(w) <==> ConvertWrap(w) == g
  {
  }

  /** `ConvertEnum(GlTextureWrapMode)`: any value past `Repeat` is `GL_MIRROR_CLAMP_TO_EDGE`. */
  function ConvertWrapMode(m: byte): (g: nat)
    ensures g in {GL_CLAMP_TO_EDGE, GL_CLAMP_TO_BORDER, GL_MIRRORED_REPEAT, GL_REPEAT, GL_MIRROR_CLAMP_TO_EDGE}
  {
    if m == ModeClampToEdge then GL_CLAMP_TO_EDGE
    else if m == ModeClampToBorder then GL_CLAMP_TO_BORDER
    else if m == ModeMirroredRepeat then GL_MIRRORED_REPEAT
    else if m == ModeRepeat then GL_REPEAT
    else GL_MIRROR_CLAMP_TO_EDGE
  }

  function WrapModeOf(g: nat): Option<byte>
  {
    if g == GL_CLAMP_TO_EDGE then Some(ModeClampToEdge)
    else if g == GL_CLAMP_TO_BORDER then Some(ModeClampToBorder)
    else if g == GL_MIRRORED_REPEAT then Some(ModeMirroredRepeat)
    else if g == GL_REPEAT then Some(ModeRepeat)
    else if g == GL_MIRROR_CLAMP_TO_EDGE then Some(ModeMirrorClampToEdge)
    else None
  }

  /** Each wrap mode below `Max` converts to its own constant and back. */
  lemma WrapModeRoundTrip(m: byte, g: nat)
    requires m < WrapModeMax
    ensures WrapModeOf(ConvertWrapMode(m)) == Some(m)
    ensures WrapModeOf(g) == Some(m) <==> ConvertWrapMode(m) == g
  {
  }

  /** `ConvertEnum(GlTextureFilter)`: any value past `NearestMipmapLinear` is `GL_LINEAR_MIPMAP_LINEAR`. */
  function ConvertFilter(f: byte): (g: nat)
    ensures g in {GL_NEAREST, GL_LINEAR, GL_NEAREST_MIPMAP_NEAREST, GL_LINEAR_MIPMAP_NEAREST,
                  GL_NEAREST_MIPMAP_LINEAR, GL_LINEAR_MIPMAP_LINEAR}
  {
    if f == FilterNearest then GL_NEAREST
    else if f == FilterLinear then GL_LINEAR
    else if f == FilterNearestMipmapNearest then GL_NEAREST_MIPMAP_NEAREST
    else if f == FilterLinearMipmapNearest then GL_LINEAR_MIPMAP_NEAREST
    else if f == FilterNearestMipmapLinear then GL_NEAREST_MIPMAP_LINEAR
    else GL_LINEAR_MIPMAP_LINEAR
  }

  function FilterOf(g: nat): Option<byte>
  {
    if g == GL_NEAREST then Some(FilterNearest)
    else if g == GL_LINEAR then Some(FilterLinear)
    else if g == GL_NEAREST_MIPMAP_NEAREST then Some(FilterNearestMipmapNearest)
    else if g == GL_LINEAR_MIPMAP_NEAREST then Some(FilterLinearMipmapNearest)
    else if g == GL_NEAREST_MIPMAP_LINEAR then Some(FilterNearestMipmapLinear)
    else if g == GL_LINEAR_MIPMAP_LINEAR then Some(FilterLinearMipmapLinear)
    else None
  }

  /** Each filter below `Max` converts to its own constant and back. */
  lemma FilterRoundTrip(f: byte, g: nat)
    requires f < FilterMax
    ensures FilterOf(ConvertFilter(f)) == Some(f)
    ensures FilterOf(g) == Some(f) <==> ConvertFilter(f) == g
  {
  }
}
