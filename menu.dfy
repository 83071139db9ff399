/** The top-level menu table `ment_top` (source/main.c:170-178). An entry is
    the `ment_t` record: its type, caption, colour and optional handler. */
module Menu {
  import opened Base

  /** The palette names `COLOR_*` of the graphics header, and raw ARGB
      values written directly. */
  datatype Color = Red | Orange | Yellow | Green | Blue | Violet | Argb(value: bv32)

  /** The functions a menu entry can point to. */
  datatype Handler = SysnandDump | EmunandDump | RebootNormal | RebootRcm | PowerOff

  /** `MENT_HANDLER`, `MENT_CAPTION`, `MENT_END`. */
  datatype EntryType = MentHandler | MentCaption | MentEnd

  datatype Entry = Entry(kind: EntryType, caption: string, color: Color, handler: Option<Handler>)

  /** `MDEF_HANDLER(caption, handler, color)`. */
  function HandlerEntry(caption: string, h: Handler, color: Color): Entry
  {
    Entry(MentHandler, caption, color, Some(h))
  }

  /** `MDEF_CAPTION(caption, color)`. */
  function CaptionEntry(caption: string, color: Color): Entry
  {
    Entry(MentCaption, caption, color, None)
  }

  /** `MDEF_END()`: every other field zero. */
  const END_ENTRY: Entry := Entry(MentEnd, "", Argb(0), None)

  /** The grey of an entry that can no longer be chosen. */
  const DISABLED_COLOR: Color := Argb(0xFF55_5555)

  /** `ment_top` as the image is loaded. */
  const MENT_TOP: seq<Entry> := [
    HandlerEntry("Dump from SysNAND | Key generation: unk", SysnandDump, Red),
    HandlerEntry("Dump from EmuNAND | Key generation: unk", EmunandDump, Orange),
    CaptionEntry("---------------", Yellow),
    HandlerEntry("Reboot (Normal)", RebootNormal, Green),
    HandlerEntry("Reboot (RCM)", RebootRcm, Blue),
    HandlerEntry("Power off", PowerOff, Violet),
    END_ENTRY
  ]

  /** An entry the menu loop will run a handler for. */
  predicate Selectable(e: Entry)
  {
    e.kind == MentHandler && e.handler.Some?
  }

  /** The in-place downgrade of an entry to a grey caption: type, colour and
      handler are overwritten, the caption is kept. */
  function Disabled(e: Entry): (d: Entry)
    ensures !Selectable(d) && d.caption == e.caption
  {
    e.(kind := MentCaption, color := DISABLED_COLOR, handler := None)
  }
}
