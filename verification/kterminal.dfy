// The kernel terminal (src/kterminal.c): typed characters collect in a command buffer of one
// screenful; Enter runs the buffered command and empties the buffer.
module KTerminal {
  import opened Types
  import opened Keyboard

  /** SCREEN_HIGH * SCREEN_WIDE: 25 rows of 80 columns. */
  const CMD_BUF_SIZE: nat := 25 * 80
  const NEWLINE: Byte := 0x0A
  const RETURN: Byte := 0x0D

  /** The commands run_cmd tells apart. */
  datatype Command = Clear | Help | Unknown

  /** The C string stored at the start of s: the bytes before the first NUL (all of s when there is none). */
  function CText(s: seq<Byte>): (t: seq<Byte>)
    ensures |t| <= |s| && t == s[..|t|]
    ensures forall i :: 0 <= i < |t| ==> t[i] != 0
    ensures |t| < |s| ==> s[|t|] == 0
  {
    if s == [] || s[0] == 0 then [] else [s[0]] + CText(s[1..])
  }

  /** A buffer whose first pos bytes hold no NUL and the rest only NULs holds exactly those pos bytes as a C string. */
  lemma {:induction false} CTextOfLine(s: seq<Byte>, pos: nat)
    requires pos < |s|
    requires forall i :: 0 <= i < pos ==> s[i] != 0
    requires s[pos] == 0
    ensures CText(s) == s[..pos]
  {
    if pos > 0 {
      CTextOfLine(s[1..], pos - 1);
      assert s[..pos] == [s[0]] + s[1..][..pos - 1];
    }
  }

  /**
   * run_cmd on the C string in the buffer: "clear" and "help" are known, anything else is
   * unknown (strcmp returns 0 exactly for equal strings).
   */
  function CommandOf(text: seq<Byte>): Command {
    if text == Ascii("clear") then Clear
    else if text == Ascii("help") then Help
    else Unknown
  }

  /** cmd_buf and cur_cmd_buf_pos. */
  class Terminal {
    var buf: array<Byte>
    var pos: int

    /**
     * The buffer is one screenful; pos counts the bytes typed, which are never a newline or a
     * carriage return; every byte after them is NUL.
     */
    ghost predicate Valid()
      reads this, buf
    {
      && buf.Length == CMD_BUF_SIZE && 0 <= pos <= CMD_BUF_SIZE
      && (forall i :: 0 <= i < pos ==> buf[i] != NEWLINE && buf[i] != RETURN)
      && (forall i :: pos <= i < CMD_BUF_SIZE ==> buf[i] == 0)
    }

    /** The bytes typed since the buffer was last emptied. */
    function Line(): seq<Byte>
      reads this, buf
      requires Valid()
    {
      buf[..pos]
    }

    /** init_buf: a zeroed buffer of CMD_BUF_SIZE bytes, nothing typed. */
    constructor InitBuf()
      ensures Valid() && fresh(buf) && Line() == []
    {
      buf := new Byte[CMD_BUF_SIZE](_ => 0);
      pos := 0;
    }

    /** add_char_to_buf: c is appended unless the buffer is full or c is a newline or carriage return. */
    method AddChar(c: Byte)
      requires Valid()
      modifies this, buf
      ensures Valid() && buf == old(buf)
      ensures old(pos) < CMD_BUF_SIZE && c != NEWLINE && c != RETURN ==> Line() == old(Line()) + [c]
      ensures !(old(pos) < CMD_BUF_SIZE && c != NEWLINE && c != RETURN) ==> unchanged(this, buf)
    {
      if pos < CMD_BUF_SIZE && c != NEWLINE && c != RETURN {
        buf[pos] := c;
        pos := pos + 1;
      }
    }

    /** clear_buf: the typed bytes are zeroed, so the whole buffer is NUL again. */
    method ClearBuf()
      requires Valid()
      modifies this, buf
      ensures Valid() && buf == old(buf) && Line() == []
      ensures forall i :: 0 <= i < buf.Length ==> buf[i] == 0
    {
      forall i | 0 <= i < pos {
        buf[i] := 0;
      }
      pos := 0;
    }

    /**
     * run_cmd: the command named by the C string in the buffer. When the buffer is not full and
     * no NUL was typed, that string is the line typed.
     */
    method RunCmd() returns (cmd: Command)
      requires Valid()
      ensures cmd == CommandOf(CText(buf[..]))
      ensures pos < CMD_BUF_SIZE && (forall i :: 0 <= i < pos ==> buf[i] != 0) ==> cmd == CommandOf(Line())
    {
      if pos < CMD_BUF_SIZE && (forall i :: 0 <= i < pos ==> buf[i] != 0) {
        CTextOfLine(buf[..], pos);
      }
      cmd := CommandOf(CText(buf[..]));
    }

    /**
     * One turn of start_terminal's loop with the key c read: NUL (no key) does nothing; any
     * other byte is added; a newline then runs the line and empties the buffer.
     */
    method Feed(c: Byte) returns (ran: Option<Command>)
      requires Valid()
      modifies this, buf
      ensures Valid() && buf == old(buf)
      ensures c == 0 ==> ran == None && Line() == old(Line())
      ensures c != 0 && c != NEWLINE ==>
        ran == None && Line() == if old(pos) < CMD_BUF_SIZE && c != RETURN then old(Line()) + [c] else old(Line())
      ensures c == NEWLINE ==> ran == Some(CommandOf(CText(old(buf[..])))) && Line() == []
      ensures c == NEWLINE && old(pos) < CMD_BUF_SIZE && (forall i :: 0 <= i < old(pos) ==> old(buf[i]) != 0)
        ==> ran == Some(CommandOf(old(Line())))
    {
      ran := None;
      if c != 0 {
        AddChar(c);
        if c == NEWLINE {
          assert buf[..] == old(buf[..]);
          var cmd := RunCmd();
          ran := Some(cmd);
          ClearBuf();
        }
      }
    }
  }
}
