/** The transfer accumulator (`WholeData`): the declared total length, the number of
    body bytes received so far, and the responses in arrival order. */
module Transfer {
  import opened Wire
  import opened Codec

  predicate AllWellFormed(rs: seq<Response>) {
    forall i :: 0 <= i < |rs| ==> rs[i].WellFormed()
  }

  /** The number of body bytes held by `rs`. */
  function TotalLen(rs: seq<Response>): nat
    requires AllWellFormed(rs)
    decreases |rs|
  {
    if rs == [] then 0 else TotalLen(rs[..|rs| - 1]) + |rs[|rs| - 1].Data()|
  }

  /** The bodies of `rs`, one after the other, in order. */
  function Concat(rs: seq<Response>): seq<byte>
    requires AllWellFormed(rs)
    decreases |rs|
  {
    if rs == [] then [] else Concat(rs[..|rs| - 1]) + rs[|rs| - 1].Data()
  }

  /** The reassembled bytes are exactly as many as the counter says. */
  lemma {:induction false} ConcatLength(rs: seq<Response>)
    requires AllWellFormed(rs)
    ensures |Concat(rs)| == TotalLen(rs)
    decreases |rs|
  {
    if rs != [] {
      ConcatLength(rs[..|rs| - 1]);
    }
  }

  /** Body `i` sits in the reassembled bytes at offset `TotalLen(rs[..i])`, the number
      of bytes received before it, and ends where body `i + 1` begins: no gap, no
      overlap, arrival order. */
  lemma {:induction false} ConcatPlacesBodies(rs: seq<Response>, i: nat)
    requires AllWellFormed(rs) && i < |rs|
    ensures TotalLen(rs[..i + 1]) == TotalLen(rs[..i]) + |rs[i].Data()|
    ensures TotalLen(rs[..i + 1]) <= |Concat(rs)|
    ensures Concat(rs)[TotalLen(rs[..i])..TotalLen(rs[..i + 1])] == rs[i].Data()
    decreases |rs|
  {
    var last := |rs| - 1;
    var init := rs[..last];
    var head, body := Concat(init), rs[last].Data();
    assert Concat(rs) == head + body;
    ConcatLength(init);
    if i == last {
      assert rs[..i] == init && rs[..i + 1] == rs;
      assert (head + body)[|head|..|head| + |body|] == body;
    } else {
      ConcatPlacesBodies(init, i);
      assert init[..i] == rs[..i] && init[..i + 1] == rs[..i + 1];
      SliceOfPrefix(head, body, TotalLen(rs[..i]), TotalLen(rs[..i + 1]));
    }
  }

  lemma {:induction false} SliceOfPrefix(x: seq<byte>, y: seq<byte>, a: nat, b: nat)
    requires a <= b <= |x|
    ensures (x + y)[a..b] == x[a..b]
  {
  }

  /** Appending a response adds its body length to the total. */
  lemma {:induction false} TotalLenAppend(rs: seq<Response>, r: Response)
    requires AllWellFormed(rs) && r.WellFormed()
    ensures AllWellFormed(rs + [r])
    ensures TotalLen(rs + [r]) == TotalLen(rs) + |r.Data()|
    ensures Concat(rs + [r]) == Concat(rs) + r.Data()
  {
    assert (rs + [r])[..|rs|] == rs;
  }

  /** The reassembly of one more stored response extends the previous one by its body. */
  lemma {:induction false} ConcatPrefix(rs: seq<Response>, i: nat)
    requires AllWellFormed(rs) && i < |rs|
    ensures AllWellFormed(rs[..i]) && AllWellFormed(rs[..i + 1])
    ensures Concat(rs[..i + 1]) == Concat(rs[..i]) + rs[i].Data()
  {
    var init := rs[..i];
    assert rs[..i + 1] == init + [rs[i]];
    TotalLenAppend(init, rs[i]);
  }

  /** The total never decreases along a run of responses. */
  lemma {:induction false} TotalLenMonotone(rs: seq<Response>, i: nat)
    requires AllWellFormed(rs) && i <= |rs|
    ensures TotalLen(rs[..i]) <= TotalLen(rs)
    decreases |rs|
  {
    if i < |rs| {
      assert rs[..|rs| - 1][..i] == rs[..i];
      TotalLenMonotone(rs[..|rs| - 1], i);
    } else {
      assert rs[..i] == rs;
    }
  }

  class WholeData {
    var targetLen: nat
    var currentLen: nat
    var data: seq<Response>

    /** `currentLen` is the number of body bytes held. */
    ghost predicate Valid()
      reads this
    {
      AllWellFormed(data) && currentLen == TotalLen(data)
    }

    /** The struct literal in `main`: the first response and the declared length. */
    constructor (first: Response, targetLen: nat)
      requires first.WellFormed()
      ensures Valid()
      ensures this.targetLen == targetLen && data == [first] && currentLen == |first.Data()|
    {
      this.targetLen := targetLen;
      currentLen := |first.Data()|;
      data := [first];
      assert [first][..0] == [];
    }

    /** `add`: counts the new body, stores the response last, and reports whether the
        count now equals the declared length. */
    method Add(response: Response) returns (complete: bool)
      requires Valid() && response.WellFormed()
      modifies this
      ensures Valid()
      ensures targetLen == old(targetLen)
      ensures data == old(data) + [response]
      ensures currentLen == old(currentLen) + |response.Data()|
      ensures complete <==> currentLen == targetLen
    {
      TotalLenAppend(data, response);
      currentLen := currentLen + |response.Data()|;
      data := data + [response];
      complete := currentLen == targetLen;
    }

    /** `_to_vec`: the bodies in stored order, as one byte sequence as long as the
        counter says. */
    function ToVec(): (r: seq<byte>)
      reads this
      requires Valid()
      ensures |r| == currentLen
    {
      ConcatLength(data);
      Concat(data)
    }

    /** `save`: appends every body, in stored order, to the output file. */
    method Save(file: seq<byte>) returns (written: seq<byte>)
      requires Valid()
      ensures written == file + ToVec()
    {
      written := file;
      var i := 0;
      while i < |data|
        invariant i <= |data|
        invariant written == file + Concat(data[..i])
      {
        ConcatPrefix(data, i);
        written := written + data[i].Data();
        i := i + 1;
      }
      assert data[..i] == data;
    }
  }
}
