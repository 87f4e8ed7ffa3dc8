/**
  Value types shared by the renderer: the normalised input events handed to
  the game, the command queue, text alignment, and the renderer's side of the
  curses driver (the raw key codes it receives and the calls it makes).
 */
module Prelude {

  datatype Option<T> = None | Some(value: T)

  /** A normalised input event (`TermInput`). */
  datatype TermInput =
    | Mouse(mx: int, my: int)
    | Character(ch: char)
    | Left | Right | Up | Down
    | SpaceBar | BackSpace | Enter | Tab | Escape
    | Home | End | Insert | Delete | PageUp | PageDown
    | F1 | F2 | F3 | F4 | F5 | F6 | F7 | F8 | F9 | F10 | F11 | F12

  /** The only command the game can send to the renderer. */
  datatype TermCommand = Exit

  /** Horizontal alignment of a text around its anchor cell. */
  datatype TermTextAlign = LEFT | CENTER | RIGHT

  /**
    The curses key codes the renderer tells apart. Every other code the
    driver can report is `Unknown`.
   */
  datatype RawInput =
    | Char(c: char)
    | KeyBackspace
    | KeyLeft | KeyRight | KeyUp | KeyDown
    | KeyHome | KeyEnd | KeyIC | KeyDC | KeyPPage | KeyNPage
    | KeyF1 | KeyF2 | KeyF3 | KeyF4 | KeyF5 | KeyF6
    | KeyF7 | KeyF8 | KeyF9 | KeyF10 | KeyF11 | KeyF12
    | KeyMouse
    | KeyResize
    | Unknown(code: int)

  /** A successful mouse query: the mouse's column and row. */
  datatype MouseEvent = MouseEvent(x: int, y: int)

  /**
    What the renderer does to the outside world, in order: draw a glyph at a
    cell, re-read the terminal geometry, erase the screen, show the cursor,
    restore the terminal, or ask the application to exit.
   */
  datatype Effect =
    | Put(row: nat, col: nat, glyph: char)
    | ResizeTerm
    | Erase
    | ShowCursor
    | EndWin
    | AppExit

  /** The escape character, U+001B. */
  const ESC: char := '\U{1b}'
}
