/** Writing and parsing together. */
module JsonCodec {
  import opened JsonGrammar
  import opened JsonScan
  import opened JsonText
  import opened JsonWriter
  import opened JsonParser

  /** A float-free tree within the parser's limits, written to memory in any
      layout and parsed again, is the same tree, unless memory runs out. */
  method WriteThenParse(v: Json, arena: Arena, o: Options, newline: bool, lim: Limits, used: nat)
    returns (r: Result<Json>)
    requires FloatFree(v) && Fits(v, lim, used) && Sound(lim)
    modifies arena
    ensures r == Ok(v) || (r == Err(OutOfMemory) && arena.left == 0)
  {
    LimitedRoundTrip(v, o, newline, lim, used);
    var text := WriteArena(v, arena, o, newline);
    if text.Err? { return Err(text.error); }
    r := Parse(text.value, lim, used, arena);
  }
}
