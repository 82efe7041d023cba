/**
 * The drawing primitives the three cards are made of, and the styling
 * constants they share. Coordinates are exact reals; turning a primitive into
 * markup text is not part of this model.
 */
module Svg {

  const CardWidth: int := 500

  const DarkBg: string := "#0d1117"
  const TitleColor: string := "#539bf5"
  const TextColor: string := "#e6edf3"
  const TrackColor: string := "#30363d"

  /** The cyclic palette bars and dots are coloured from. */
  const Palette: seq<string> :=
    ["#6EE7B7", "#FDE68A", "#A78BFA", "#FCA5A5", "#60A5FA", "#F59E0B", "#34D399", "#F472B6"]

  /** `PALETTE[i % len(PALETTE)]`. */
  function PaletteColor(i: nat): (c: string)
    ensures c in Palette
  {
    Palette[i % |Palette|]
  }

  datatype Anchor = Start | Middle | End

  /** What a text element shows: a literal, a percentage (rendered with two
      decimals) or an integer counter. */
  datatype Content = Plain(text: string) | Percent(pct: real) | Number(n: int)

  datatype Primitive =
    /** The full-size rounded background rectangle. */
    | Background(rx: real, fill: string)
    | Rect(x: real, y: real, w: real, h: real, rx: real, fill: string)
    /** A filled circle. */
    | Dot(cx: real, cy: real, r: real, fill: string)
    /** An unfilled, stroked circle. */
    | Ring(cx: real, cy: real, r: real, stroke: string, strokeWidth: real, opacity: real)
    | Text(x: real, y: real, content: Content, size: nat, weight: nat, fill: string, anchor: Anchor)

  /** `svg_text`, with its default size, weight, colour and anchor. */
  function SvgText(x: real, y: real, content: Content, size: nat := 14, weight: nat := 400,
                   fill: string := TextColor, anchor: Anchor := Start): Primitive
  {
    Text(x, y, content, size, weight, fill, anchor)
  }

  /** A card: its canvas size, the primitives drawn before the rows, one group
      of primitives per row (what one loop iteration appends), and the
      primitives drawn after the rows. */
  datatype Card = Card(width: int, height: int, head: seq<Primitive>, rows: seq<seq<Primitive>>,
                       tail: seq<Primitive>)

  function Flatten(groups: seq<seq<Primitive>>): seq<Primitive>
  {
    if groups == [] then [] else groups[0] + Flatten(groups[1..])
  }

  /** The primitives of `c` in the order they are emitted. */
  function Primitives(c: Card): seq<Primitive>
  {
    c.head + Flatten(c.rows) + c.tail
  }

  /** The title every card starts with. */
  function Title(text: string): Primitive
  {
    SvgText(20.0, 32.0, Plain(text), 20, 700, TitleColor)
  }

  lemma {:induction false} FlattenLength(groups: seq<seq<Primitive>>, k: nat)
    requires forall i :: 0 <= i < |groups| ==> |groups[i]| == k
    ensures |Flatten(groups)| == k * |groups|
  {
    if groups != [] {
      FlattenLength(groups[1..], k);
    }
  }
}
