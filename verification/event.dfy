/** The closed set of input notifications produced by the input parser and
    the resize notifier (`src/event.rs`). */
module Events {
  import opened Ints

  /** A mouse button tag. The Rust enum declares each variant with its own bit,
      but no operation combines them. */
  datatype MouseButton =
    | Left | Right | Middle | Move | WheelUp | WheelDown | Wheel | None | Unknown

  /** The discriminant the Rust enum assigns to each button. */
  function Discriminant(b: MouseButton): (r: nat)
    ensures r in {1, 2, 4, 8, 16, 32, 64, 128, 256}
    ensures 1 <= r <= 256
  {
    match b
    case Left => 1
    case Right => 2
    case Middle => 4
    case Move => 8
    case WheelUp => 16
    case WheelDown => 32
    case Wheel => 64
    case None => 128
    case Unknown => 256
  }

  /** Discriminants are pairwise distinct, so the tag is recoverable from the bits. */
  lemma DiscriminantInjective(a: MouseButton, b: MouseButton)
    ensures Discriminant(a) == Discriminant(b) <==> a == b
  {
  }

  /** Right (bit 1) is ordered before Middle (bit 2). */
  lemma RightBeforeMiddle()
    ensures Discriminant(Left) < Discriminant(Right) < Discriminant(Middle)
  {
  }

  datatype Event =
    | Resize(width: u32, height: u32)
    | PixelResize(pixelWidth: u32, pixelHeight: u32)
    | FontResize(fontWidth: u32, fontHeight: u32)
    | MouseMove(moveButton: MouseButton, moveX: u32, moveY: u32)
    | MouseUp(upButton: MouseButton, upX: u32, upY: u32)
    | MouseDown(downButton: MouseButton, downX: u32, downY: u32)
    | KeyPress(key: char)
    | Unknown
}
