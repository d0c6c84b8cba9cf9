/**
 * The operation buffer (package op) as far as io/key uses it: an append-only
 * log of fixed-length byte records, each with the values (handler keys)
 * attached to it. `Write` reserves a zero-filled record and hands it back to
 * the caller, who fills it in place; the record stays part of the buffer.
 */
module Op {

  type Byte = bv8

  /** A value attached to a record; for key input, the identity of the handler. */
  type Ref = nat

  /** What a replay of the buffer sees for one record. */
  datatype Record = Record(data: seq<Byte>, refs: seq<Ref>)

  /**
   * The operation tags and fixed record lengths (package opconst) that
   * io/key writes. Their numeric values are not part of this model.
   */
  datatype OpConst = OpConst(keyInput: Byte, keyInputLen: nat, hideInput: Byte, hideInputLen: nat)

  /** A key-input record has room for its tag and its focus flag. */
  predicate KeyInputConst(c: OpConst) {
    c.keyInputLen >= 2
  }

  /** A hide-input record has room for its tag. */
  predicate HideInputConst(c: OpConst) {
    c.hideInputLen >= 1
  }

  /** The two operations have different tags. */
  predicate DistinctTags(c: OpConst) {
    c.keyInput != c.hideInput
  }

  /** A reserved record: its bytes, shared with the writer that fills them, and its refs. */
  datatype Region = Region(data: array<Byte>, refs: seq<Ref>)

  /** The arrays that hold the bytes of `rs`. */
  ghost function Arrays(rs: seq<Region>): set<array<Byte>> {
    set i | 0 <= i < |rs| :: rs[i].data
  }

  /** The records of `rs` as they read now. */
  ghost function RecordsOf(rs: seq<Region>): (r: seq<Record>)
    reads Arrays(rs)
    ensures |r| == |rs|
    ensures forall i :: 0 <= i < |rs| ==> r[i] == Record(rs[i].data[..], rs[i].refs)
  {
    if rs == [] then []
    else
      assert Arrays(rs[..|rs| - 1]) <= Arrays(rs);
      RecordsOf(rs[..|rs| - 1]) + [Record(rs[|rs| - 1].data[..], rs[|rs| - 1].refs)]
  }

  /** n zero bytes. */
  function Zeros(n: nat): (z: seq<Byte>)
    ensures |z| == n && forall i :: 0 <= i < n ==> z[i] == 0
  {
    seq(n, _ => 0)
  }

  class Ops {
    var regions: seq<Region>

    /** The buffer's contents, record by record. */
    ghost function Records(): seq<Record>
      reads this, Arrays(regions)
    {
      RecordsOf(regions)
    }

    constructor ()
      ensures regions == [] && Records() == []
    {
      regions := [];
    }

    /**
     * Appends a record of `n` zero bytes carrying `refs` and returns its bytes
     * for the caller to fill.
     */
    method Write(n: nat, refs: seq<Ref>) returns (data: array<Byte>)
      modifies this
      ensures fresh(data) && data.Length == n
      ensures regions == old(regions) + [Region(data, refs)]
      ensures Records() == old(Records()) + [Record(Zeros(n), refs)]
    {
      data := new Byte[n](_ => 0);
      regions := regions + [Region(data, refs)];
      assert data[..] == Zeros(n);
    }
  }
}
