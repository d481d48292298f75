/** What IPLocator::setIPv6(Locator&, string) computes, as a function of the text. Where the
    "::" stands and how many bytes it is worth comes from counting colons in uint16_t; a
    stream then delivers the groups. */
module IPv6Text {
  import opened Text
  import opened CharStream
  import opened IPv6Grammar
  import opened Locators

  /** Where the zero block is: at the start, at the end, after `position` bytes, or nowhere. */
  datatype Block =
    | Leading(bytes: nat)
    | Trailing(bytes: nat)
    | Middle(position: nat, bytes: nat)
    | NoBlock

  /** The conversion to uint16_t. */
  function U16(x: int): (r: nat)
    ensures r < 65536
    ensures 0 <= x < 65536 ==> r == x
    ensures x % 2 == 0 ==> r % 2 == 0
  {
    x % 65536
  }

  /** The colons of an address. More than eight can only come from a zone. */
  predicate FewColons(s: string) {
    s != "" && 2 <= Colons(s) <= 8
  }

  function BlockOf(s: string): (b: Block)
    requires s != ""
    ensures !b.NoBlock? ==> 0 < b.bytes < 65536 && b.bytes % 2 == 0
    ensures b.Middle? ==> b.position < 65536 && b.position % 2 == 0
    ensures FewColons(s) ==> match b
      case Leading(bytes) => bytes <= 16
      case Trailing(bytes) => bytes <= 16
      case Middle(position, bytes) => position + bytes <= 16
      case NoBlock => true
  {
    var count := U16(Colons(s));
    if s[0] == ':' then
      var initialZeros := if s[|s| - 1] == ':' then 16 else U16((7 - (count - 2)) * 2);
      if initialZeros == 0 then NoBlock else Leading(initialZeros)
    else if s[|s| - 1] == ':' then
      var finalZeros := U16((7 - (count - 2)) * 2);
      if finalZeros == 0 then NoBlock else Trailing(finalZeros)
    else
      var d := FirstDouble(s);
      var numberZeros := U16((7 - (count - 1)) * 2);
      if d == -1 || numberZeros == 0 then NoBlock
      else
        assert Colons(s[..d + 1]) < Colons(s) by { ColonsAround(s, d); }
        Middle(U16(2 * Colons(s[..d + 1])), numberZeros)
  }

  lemma ColonsAround(s: string, d: int)
    requires DoubleAt(s, d)
    ensures 0 < Colons(s[..d + 1]) < Colons(s)
  {
    ColonsConcat(s[..d + 1], s[d + 1..]);
    assert s == s[..d + 1] + s[d + 1..];
    ColonsConcat(s[..d], ":");
    assert s[..d + 1] == s[..d] + ":";
  }

  /** Groups taken from a stream, the stream behind them, and the number variable. */
  datatype Taken = Taken(groups: seq<nat>, state: State, value: nat) {
    function Prepend(gs: seq<nat>): Taken { Taken(gs + groups, state, value) }

    lemma PrependTwice(gs: seq<nat>, hs: seq<nat>)
      ensures Prepend(gs).Prepend(hs) == Prepend(hs + gs)
    {
      assert hs + (gs + groups) == (hs + gs) + groups;
    }
  }

  /** `n` times a character and a number; a number beyond 16 bits ends the reading. */
  function TakeBefore(s: State, value: nat, n: nat): (t: Taken)
    ensures |t.groups| <= n
    decreases n
  {
    if n == 0 then Taken([], s, value)
    else
      var (u, v) := TakeHex(TakeChar(s), value);
      if v >= 65536 then Taken([], u, v) else TakeBefore(u, v, n - 1).Prepend([v])
  }

  /** `n` times a number and a character. */
  function TakeAfter(s: State, value: nat, n: nat): (t: Taken)
    ensures |t.groups| <= n
    decreases n
  {
    if n == 0 then Taken([], s, value)
    else
      var (u, v) := TakeHex(s, value);
      if v >= 65536 then Taken([], TakeChar(u), v)
      else TakeAfter(TakeChar(u), v, n - 1).Prepend([v])
  }

  lemma TakeNone(s: State, value: nat, done: seq<nat>)
    ensures TakeBefore(s, value, 0).Prepend(done) == Taken(done, s, value)
    ensures TakeAfter(s, value, 0).Prepend(done) == Taken(done, s, value)
  {
    assert done + [] == done;
  }

  /** `groups` is what was written before the reader stopped; the rest is still zero. */
  function Written(groups: seq<nat>, ok: bool): (r: Outcome)
    ensures |groups| <= 8 ==> |r.address| == 16
  {
    Outcome(ok, Bytes(groups + Zeros(8 - |groups|)))
  }

  /** `zeros` counts groups here, the code counts bytes. */
  function ReadLeading(s: string, zeros: nat): (r: Outcome)
    requires zeros <= 8
    ensures |r.address| == 16
  {
    var t := TakeBefore(TakeChar(State(s, false)), 0, 8 - zeros);
    var end := if zeros == 8 then TakeChar(t.state) else t.state;
    Written(Zeros(zeros) + t.groups, |t.groups| == 8 - zeros && end.rest == "")
  }

  /** A block of more than sixteen bytes leaves no room for groups and is cut short. */
  function ReadTrailing(s: string, zeros: nat): (r: Outcome)
    ensures |r.address| == 16
  {
    var n := if zeros <= 8 then 8 - zeros else 0;
    var t := TakeAfter(State(s, false), 0, n);
    Written(t.groups, |t.groups| == n && TakeChar(t.state).rest == "")
  }

  /** The group loop and the zero fill stay inside eight groups: either a number beyond 16
      bits ends the reading early enough, or position and block fit. */
  predicate MiddleInside(s: string, position: nat, zeros: nat) {
    var n := |TakeAfter(State(s, false), 0, position).groups|;
    n <= 8 && (n < position || position + zeros <= 8)
  }

  function ReadMiddle(s: string, position: nat, zeros: nat): (r: Outcome)
    requires MiddleInside(s, position, zeros)
    ensures |r.address| == 16
  {
    var t := TakeAfter(State(s, false), 0, position);
    if |t.groups| < position then Written(t.groups, false)
    else
      var n := 8 - position - zeros;
      var u := TakeBefore(t.state, t.value, n);
      Written(t.groups + Zeros(zeros) + u.groups, |u.groups| == n && u.state.rest == "")
  }

  function ReadPlain(s: string): (r: Outcome)
    ensures |r.address| == 16
  {
    var (t, v) := TakeHex(State(s, false), 0);
    var u := TakeBefore(t, v, 7);
    Written([v] + u.groups, |u.groups| == 7 && u.state.rest == "")
  }

  /** The branch the colon arithmetic selects writes inside the sixteen bytes only. */
  predicate StaysInside(s: string) {
    s != "" &&
    match BlockOf(s)
    case Leading(bytes) => bytes <= 16
    case Trailing(_) => true
    case Middle(position, bytes) => MiddleInside(s, position / 2, bytes / 2)
    case NoBlock => true
  }

  /** Beyond the array the C++ code has no defined meaning. */
  function ReadText(s: string): (r: Outcome)
    requires StaysInside(s)
    ensures |r.address| == 16
  {
    match BlockOf(s)
    case Leading(bytes) => ReadLeading(s, bytes / 2)
    case Trailing(bytes) => ReadTrailing(s, bytes / 2)
    case Middle(position, bytes) => ReadMiddle(s, position / 2, bytes / 2)
    case NoBlock => ReadPlain(s)
  }
}
