/** Scancode set 1 and the US layout, as the driver's finite tables. */
module KeyTables {
  import opened Words

  datatype KeyCode =
    | Unknown | A | B | C | D | E | F | G | H | I | J | K | L | M | N | O | P | Q | R | S | T | U
    | V | W | X | Y | Z | Key0 | Key1 | Key2 | Key3 | Key4 | Key5 | Key6 | Key7 | Key8 | Key9 | F1
    | F2 | F3 | F4 | F5 | F6 | F7 | F8 | F9 | F10 | F11 | F12 | Escape | Tab | CapsLock | LeftShift
    | RightShift | LeftCtrl | RightCtrl | LeftAlt | RightAlt | Space | Enter | Backspace | Delete
    | Insert | Home | End | PageUp | PageDown | Up | Down | Left | Right | Minus | Equals
    | LeftBracket | RightBracket | Backslash | Semicolon | Quote | Grave | Comma | Period | Slash
    | NumLock | ScrollLock | Keypad0 | Keypad1 | Keypad2 | Keypad3 | Keypad4 | Keypad5 | Keypad6
    | Keypad7 | Keypad8 | Keypad9 | KeypadPlus | KeypadMinus | KeypadMultiply | KeypadDivide
    | KeypadEnter | KeypadPeriod

  function ScancodeToKeycode(code: u8): KeyCode {
    match code
    case 0x01 => KeyCode.Escape
    case 0x02 => KeyCode.Key1
    case 0x03 => KeyCode.Key2
    case 0x04 => KeyCode.Key3
    case 0x05 => KeyCode.Key4
    case 0x06 => KeyCode.Key5
    case 0x07 => KeyCode.Key6
    case 0x08 => KeyCode.Key7
    case 0x09 => KeyCode.Key8
    case 0x0A => KeyCode.Key9
    case 0x0B => KeyCode.Key0
    case 0x0C => KeyCode.Minus
    case 0x0D => KeyCode.Equals
    case 0x0E => KeyCode.Backspace
    case 0x0F => KeyCode.Tab
    case 0x10 => KeyCode.Q
    case 0x11 => KeyCode.W
    case 0x12 => KeyCode.E
    case 0x13 => KeyCode.R
    case 0x14 => KeyCode.T
    case 0x15 => KeyCode.Y
    case 0x16 => KeyCode.U
    case 0x17 => KeyCode.I
    case 0x18 => KeyCode.O
    case 0x19 => KeyCode.P
    case 0x1A => KeyCode.LeftBracket
    case 0x1B => KeyCode.RightBracket
    case 0x1C => KeyCode.Enter
    case 0x1D => KeyCode.LeftCtrl
    case 0x1E => KeyCode.A
    case 0x1F => KeyCode.S
    case 0x20 => KeyCode.D
    case 0x21 => KeyCode.F
    case 0x22 => KeyCode.G
    case 0x23 => KeyCode.H
    case 0x24 => KeyCode.J
    case 0x25 => KeyCode.K
    case 0x26 => KeyCode.L
    case 0x27 => KeyCode.Semicolon
    case 0x28 => KeyCode.Quote
    case 0x29 => KeyCode.Grave
    case 0x2A => KeyCode.LeftShift
    case 0x2B => KeyCode.Backslash
    case 0x2C => KeyCode.Z
    case 0x2D => KeyCode.X
    case 0x2E => KeyCode.C
    case 0x2F => KeyCode.V
    case 0x30 => KeyCode.B
    case 0x31 => KeyCode.N
    case 0x32 => KeyCode.M
    case 0x33 => KeyCode.Comma
    case 0x34 => KeyCode.Period
    case 0x35 => KeyCode.Slash
    case 0x36 => KeyCode.RightShift
    case 0x37 => KeyCode.KeypadMultiply
    case 0x38 => KeyCode.LeftAlt
    case 0x39 => KeyCode.Space
    case 0x3A => KeyCode.CapsLock
    case 0x3B => KeyCode.F1
    case 0x3C => KeyCode.F2
    case 0x3D => KeyCode.F3
    case 0x3E => KeyCode.F4
    case 0x3F => KeyCode.F5
    case 0x40 => KeyCode.F6
    case 0x41 => KeyCode.F7
    case 0x42 => KeyCode.F8
    case 0x43 => KeyCode.F9
    case 0x44 => KeyCode.F10
    case 0x45 => KeyCode.NumLock
    case 0x46 => KeyCode.ScrollLock
    case 0x47 => KeyCode.Keypad7
    case 0x48 => KeyCode.Keypad8
    case 0x49 => KeyCode.Keypad9
    case 0x4A => KeyCode.KeypadMinus
    case 0x4B => KeyCode.Keypad4
    case 0x4C => KeyCode.Keypad5
    case 0x4D => KeyCode.Keypad6
    case 0x4E => KeyCode.KeypadPlus
    case 0x4F => KeyCode.Keypad1
    case 0x50 => KeyCode.Keypad2
    case 0x51 => KeyCode.Keypad3
    case 0x52 => KeyCode.Keypad0
    case 0x53 => KeyCode.KeypadPeriod
    case 0x57 => KeyCode.F11
    case 0x58 => KeyCode.F12
    case _ => KeyCode.Unknown
  }

  /** Codes that follow the 0xE0 prefix. */
  function ExtendedScancodeToKeycode(code: u8): KeyCode {
    match code
    case 0x1C => KeyCode.KeypadEnter
    case 0x1D => KeyCode.RightCtrl
    case 0x35 => KeyCode.KeypadDivide
    case 0x38 => KeyCode.RightAlt
    case 0x47 => KeyCode.Home
    case 0x48 => KeyCode.Up
    case 0x49 => KeyCode.PageUp
    case 0x4B => KeyCode.Left
    case 0x4D => KeyCode.Right
    case 0x4F => KeyCode.End
    case 0x50 => KeyCode.Down
    case 0x51 => KeyCode.PageDown
    case 0x52 => KeyCode.Insert
    case 0x53 => KeyCode.Delete
    case _ => KeyCode.Unknown
  }

  /** Letters follow shift or caps lock, all other keys follow shift alone. */
  function CharOf(keycode: KeyCode, shift: bool, capsLock: bool): Option<char> {
    var upper := shift != capsLock;
    match keycode
    case A => Some(if upper then 'A' else 'a')
    case B => Some(if upper then 'B' else 'b')
    case C => Some(if upper then 'C' else 'c')
    case D => Some(if upper then 'D' else 'd')
    case E => Some(if upper then 'E' else 'e')
    case F => Some(if upper then 'F' else 'f')
    case G => Some(if upper then 'G' else 'g')
    case H => Some(if upper then 'H' else 'h')
    case I => Some(if upper then 'I' else 'i')
    case J => Some(if upper then 'J' else 'j')
    case K => Some(if upper then 'K' else 'k')
    case L => Some(if upper then 'L' else 'l')
    case M => Some(if upper then 'M' else 'm')
    case N => Some(if upper then 'N' else 'n')
    case O => Some(if upper then 'O' else 'o')
    case P => Some(if upper then 'P' else 'p')
    case Q => Some(if upper then 'Q' else 'q')
    case R => Some(if upper then 'R' else 'r')
    case S => Some(if upper then 'S' else 's')
    case T => Some(if upper then 'T' else 't')
    case U => Some(if upper then 'U' else 'u')
    case V => Some(if upper then 'V' else 'v')
    case W => Some(if upper then 'W' else 'w')
    case X => Some(if upper then 'X' else 'x')
    case Y => Some(if upper then 'Y' else 'y')
    case Z => Some(if upper then 'Z' else 'z')
    case Key0 => Some(if shift then ')' else '0')
    case Key1 => Some(if shift then '!' else '1')
    case Key2 => Some(if shift then '@' else '2')
    case Key3 => Some(if shift then '#' else '3')
    case Key4 => Some(if shift then '$' else '4')
    case Key5 => Some(if shift then '%' else '5')
    case Key6 => Some(if shift then '^' else '6')
    case Key7 => Some(if shift then '&' else '7')
    case Key8 => Some(if shift then '*' else '8')
    case Key9 => Some(if shift then '(' else '9')
    case Space => Some(' ')
    case Enter => Some('\n')
    case Tab => Some('\t')
    case Backspace => Some('\U{0008}')
    case Escape => Some('\U{001B}')
    case Delete => Some('\U{007F}')
    case Minus => Some(if shift then '_' else '-')
    case Equals => Some(if shift then '+' else '=')
    case LeftBracket => Some(if shift then '{' else '[')
    case RightBracket => Some(if shift then '}' else ']')
    case Backslash => Some(if shift then '|' else '\\')
    case Semicolon => Some(if shift then ':' else ';')
    case Quote => Some(if shift then '\"' else '\'')
    case Grave => Some(if shift then '~' else '`')
    case Comma => Some(if shift then '<' else ',')
    case Period => Some(if shift then '>' else '.')
    case Slash => Some(if shift then '?' else '/')
    case Keypad0 => Some('0')
    case Keypad1 => Some('1')
    case Keypad2 => Some('2')
    case Keypad3 => Some('3')
    case Keypad4 => Some('4')
    case Keypad5 => Some('5')
    case Keypad6 => Some('6')
    case Keypad7 => Some('7')
    case Keypad8 => Some('8')
    case Keypad9 => Some('9')
    case KeypadPlus => Some('+')
    case KeypadMinus => Some('-')
    case KeypadMultiply => Some('*')
    case KeypadDivide => Some('/')
    case KeypadEnter => Some('\n')
    case KeypadPeriod => Some('.')
    case _ => None
  }
}
