/**
 The wire format of the ring: one line `"<TYPE> <id>"`, where TYPE is
 `ELECTION` or `LEADER` and id is a node identifier written in decimal.
 */
module Protocol {
  import opened JavaText

  const ELECTION: string := "ELECTION"
  const LEADER: string := "LEADER"

  /** What a node reads from a line: the first token and the integer in the second. */
  datatype Parsed = Parsed(kind: string, id: int)

  /** The line a node writes: the kind, one space, the id as `Integer.toString` prints it. */
  function Format(kind: string, id: int): string {
    kind + " " + IntToString(id)
  }

  function ElectionMessage(id: int): string {
    Format(ELECTION, id)
  }

  function LeaderMessage(id: int): string {
    Format(LEADER, id)
  }

  /**
   The reading step of `processMessage`: split at single spaces, refuse a
   line with fewer than two tokens, read the second token with
   `Integer.parseInt` (`None` when that throws), ignore any further tokens.
   The kind is not checked here; an unknown kind is dropped by the caller.
   */
  function ParseMessage(message: string): (r: Option<Parsed>)
    ensures r.Some? ==> IsInt32(r.value.id) && ' ' !in r.value.kind
    ensures r.Some? ==> |Split(message)| >= 2 && r.value.kind == Split(message)[0]
    ensures |Split(message)| < 2 ==> r == None
    ensures r.Some? <==> |Split(message)| >= 2 && ParseInt(Split(message)[1]).Some?
    ensures r.Some? ==> ParseInt(Split(message)[1]) == Some(r.value.id)
  {
    var parts := Split(message);
    if |parts| < 2 then None
    else
      match ParseInt(parts[1])
      case None => None
      case Some(id) => Some(Parsed(parts[0], id))
  }

  /** A written message reads back as the kind and id it was written from. */
  lemma ParseFormat(kind: string, id: int)
    requires ' ' !in kind && IsInt32(id)
    ensures ParseMessage(Format(kind, id)) == Some(Parsed(kind, id))
  {
    SplitTwoWords(kind, IntToString(id));
    ParseIntToString(id);
  }

  /** Tokens after the second one do not change how a message reads. */
  lemma ParseIgnoresExtraTokens(kind: string, id: int, rest: string)
    requires ' ' !in kind && IsInt32(id)
    ensures ParseMessage(Format(kind, id) + " " + rest) == Some(Parsed(kind, id))
  {
    SplitKeepsFirstTwoWords(kind, IntToString(id), rest);
    ParseIntToString(id);
  }

  /** The two messages a node originates read back as what they announce. */
  lemma ParseOwnMessages(id: int)
    requires IsInt32(id)
    ensures ParseMessage(ElectionMessage(id)) == Some(Parsed(ELECTION, id))
    ensures ParseMessage(LeaderMessage(id)) == Some(Parsed(LEADER, id))
  {
    ParseFormat(ELECTION, id);
    ParseFormat(LEADER, id);
  }

  /** A line without a space is a single token, so it is refused whatever it says. */
  lemma SingleTokenRefused(line: string)
    requires ' ' !in line
    ensures ParseMessage(line) == None
  {
  }

  /** A line with no id, such as `ELECTION`, is refused. */
  lemma MissingIdRefused()
    ensures ParseMessage("ELECTION") == None
  {
    var line := "ELECTION";
    assert forall k :: 0 <= k < |line| ==> line[k] != ' ';
    SingleTokenRefused(line);
  }

  /** An id that is not an integer is refused. */
  lemma NonIntegerIdRefused()
    ensures ParseMessage("ELECTION abc") == None
  {
    var line := "ELECTION abc";
    assert line == "ELECTION" + " " + "abc";
    SplitTwoWords("ELECTION", "abc");
    var id := "abc";
    assert !IsDigit(id[0]) && id[0] != '-' && id[0] != '+';
    assert ParseInt(id) == None;
  }

  /** A trailing space yields an empty last token, which `split` drops: one token, refused. */
  lemma TrailingSpaceRefused()
    ensures ParseMessage("ELECTION ") == None
  {
    var e := "ELECTION ";
    assert e == "ELECTION" + " " + "";
    PiecesAfterWord("ELECTION", "");
    assert Pieces(e) == ["ELECTION", ""];
  }

  /** An id beyond the `int` range is refused, whichever sign it carries. */
  lemma OutOfRangeIdRefused(kind: string, n: nat)
    requires ' ' !in kind && n > INT_MAX
    ensures ParseMessage(kind + " " + NatToString(n)) == None
    ensures ParseMessage(kind + " -" + NatToString(n + 1)) == None
  {
    SplitTwoWords(kind, NatToString(n));
    var neg := "-" + NatToString(n + 1);
    assert kind + " -" + NatToString(n + 1) == kind + " " + neg;
    SplitTwoWords(kind, neg);
    assert neg[1..] == NatToString(n + 1);
  }

  /** A well-formed line of an unknown kind still reads; it is the caller that drops it. */
  lemma UnknownKindReads()
    ensures ParseMessage("FOO 5") == Some(Parsed("FOO", 5))
  {
    assert IntToString(5) == "5";
    assert Format("FOO", 5) == "FOO 5";
    ParseFormat("FOO", 5);
  }
}
