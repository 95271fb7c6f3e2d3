/** The printed keys under which blocks, reply logs and spilled contents are kept. */
module CacheKeys {
  import opened Text

  /** `GetDataBlockCacheKey`. */
  function DataKey(blockId: string, sliceNumber: nat): string {
    blockId + ":" + Dec(sliceNumber)
  }

  /** The name whose hash is the file of a spilled payload. */
  function ContentName(blockId: string, sliceNumber: nat): string {
    blockId + "-" + Dec(sliceNumber)
  }

  /** The six fields `GetLogCacheKey` prints. */
  datatype LogId = LogId(
    primaryPeerId: string,
    blockId: string,
    sliceNumber: nat,
    primarySequenceId: nat,
    peerId: string,
    status: string)

  /** `GetLogCacheKey`. */
  function LogKey(id: LogId): string {
    id.primaryPeerId + ":" + id.blockId + ":" + Dec(id.sliceNumber) + ":" + Dec(id.primarySequenceId) + ":" +
    id.peerId + ":" + id.status
  }

  predicate ColonFree(s: string) { ':' !in s }

  lemma DigitsLack(s: string, c: char)
    requires AllDigits(s) && !IsDigit(c)
    ensures c !in s
  {
  }

  lemma DataKeyInjective(b1: string, n1: nat, b2: string, n2: nat)
    requires DataKey(b1, n1) == DataKey(b2, n2)
    ensures b1 == b2 && n1 == n2
  {
    DigitsLack(Dec(n1), ':');
    DigitsLack(Dec(n2), ':');
    LastSeparator(b1, Dec(n1), b2, Dec(n2), ':');
    DecInjective(n1, n2);
  }

  lemma ContentNameInjective(b1: string, n1: nat, b2: string, n2: nat)
    requires ContentName(b1, n1) == ContentName(b2, n2)
    ensures b1 == b2 && n1 == n2
  {
    DigitsLack(Dec(n1), '-');
    DigitsLack(Dec(n2), '-');
    LastSeparator(b1, Dec(n1), b2, Dec(n2), '-');
    DecInjective(n1, n2);
  }

  lemma NamesApart(b: string, n: nat, c: string, k: nat)
    requires b != c || n != k
    ensures ContentName(b, n) != ContentName(c, k)
  {
    if ContentName(b, n) == ContentName(c, k) {
      ContentNameInjective(b, n, c, k);
    }
  }

  /** Only the peer ids and the status must be free of colons: the block id may hold any number of them. */
  lemma LogKeyInjective(x: LogId, y: LogId)
    requires ColonFree(x.primaryPeerId) && ColonFree(x.peerId) && ColonFree(x.status)
    requires ColonFree(y.primaryPeerId) && ColonFree(y.peerId) && ColonFree(y.status)
    requires LogKey(x) == LogKey(y)
    ensures x == y
  {
    var x1, y1 := x.primaryPeerId + ":" + x.blockId, y.primaryPeerId + ":" + y.blockId;
    var x2, y2 := x1 + ":" + Dec(x.sliceNumber), y1 + ":" + Dec(y.sliceNumber);
    var x3, y3 := x2 + ":" + Dec(x.primarySequenceId), y2 + ":" + Dec(y.primarySequenceId);
    var x4, y4 := x3 + ":" + x.peerId, y3 + ":" + y.peerId;
    LastSeparator(x4, x.status, y4, y.status, ':');
    LastSeparator(x3, x.peerId, y3, y.peerId, ':');
    DigitsLack(Dec(x.primarySequenceId), ':');
    DigitsLack(Dec(y.primarySequenceId), ':');
    LastSeparator(x2, Dec(x.primarySequenceId), y2, Dec(y.primarySequenceId), ':');
    DigitsLack(Dec(x.sliceNumber), ':');
    DigitsLack(Dec(y.sliceNumber), ':');
    LastSeparator(x1, Dec(x.sliceNumber), y1, Dec(y.sliceNumber), ':');
    FirstSeparator(x.primaryPeerId, x.blockId, y.primaryPeerId, y.blockId, ':');
    DecInjective(x.sliceNumber, y.sliceNumber);
    DecInjective(x.primarySequenceId, y.primarySequenceId);
  }

  /** With a colon in any of the three texts beside the block id two different logs can print the same key, the fields of
      one being cut one place later than those of the other. */
  lemma LogKeyNeedsColonFree(id: LogId, n: nat, part: string)
    ensures var x := id.(primaryPeerId := id.primaryPeerId + ":" + part);
            var y := id.(blockId := part + ":" + id.blockId);
            x != y && LogKey(x) == LogKey(y)
    ensures var x := id.(peerId := Dec(n) + ":" + id.peerId);
            var y := LogId(id.primaryPeerId, id.blockId + ":" + Dec(id.sliceNumber), id.primarySequenceId, n, id.peerId,
                           id.status);
            x != y && LogKey(x) == LogKey(y)
    ensures var x := id.(status := part + ":" + id.status);
            var y := id.(peerId := id.peerId + ":" + part);
            x != y && LogKey(x) == LogKey(y)
  {
    ColonsAssociate(id.primaryPeerId, part, id.blockId);
    assert id.blockId != part + ":" + id.blockId;
    assert id.peerId != id.peerId + ":" + part;
  }

  lemma ColonsAssociate(a: string, b: string, c: string)
    ensures (a + ":" + b) + ":" + c == a + ":" + (b + ":" + c)
  {
  }

  /** A reply log can never take the place of a block: their keys end in different characters. */
  lemma DataKeyIsNotLogKey(blockId: string, sliceNumber: nat, id: LogId)
    requires id.status != "" && !IsDigit(id.status[|id.status| - 1])
    ensures DataKey(blockId, sliceNumber) != LogKey(id)
  {
    var d, l := DataKey(blockId, sliceNumber), LogKey(id);
    assert d[|d| - 1] == Dec(sliceNumber)[|Dec(sliceNumber)| - 1];
    assert l[|l| - 1] == id.status[|id.status| - 1];
  }
}
