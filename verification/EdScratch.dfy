/**
 The scratch file that holds the text of ed's lines.

 `pos` is the position the operating system keeps for the stream; `sfseek` is ed's own
 idea of it, which lets a read skip the seek when the file is already in position.
 */
module EdScratch {
  import opened Slices

  class ScratchFile {
    var bytes: string
    var pos: nat
    var sfseek: int
    var seekWrite: bool

    ghost predicate Valid()
      reads this
    {
      && pos <= |bytes|
      && sfseek == pos
      && (!seekWrite ==> pos == |bytes|)
    }

    constructor ()
      ensures Valid() && bytes == ""
    {
      bytes, pos, sfseek, seekWrite := "", 0, 0, false;
    }

    // close_sbuf and open_sbuf: another, empty file
    method Reset()
      modifies this
      ensures Valid() && bytes == ""
    {
      bytes, pos, sfseek, seekWrite := "", 0, 0, false;
    }

    method Seek(offset: nat)
      requires offset <= |bytes|
      modifies this`pos
      ensures pos == offset
    {
      pos := offset;
    }

    // fread: as many bytes as the file still has, up to len.
    method Read(len: nat) returns (s: string)
      requires pos <= |bytes|
      modifies this`pos
      ensures pos == if old(pos) + len <= |bytes| then old(pos) + len else |bytes|
      ensures s == bytes[old(pos)..pos]
    {
      var end := if pos + len <= |bytes| then pos + len else |bytes|;
      s := bytes[pos..end];
      pos := end;
    }

    // fwrite: overwrites from the position on and extends the file as needed.
    method Write(s: string)
      requires pos <= |bytes|
      modifies this`pos, this`bytes
      ensures pos == old(pos) + |s|
      ensures bytes == old(bytes)[..old(pos)] + s + (if pos <= |old(bytes)| then old(bytes)[pos..] else "")
    {
      var end := pos + |s|;
      bytes := bytes[..pos] + s + (if end <= |bytes| then bytes[end..] else "");
      pos := end;
    }

    // get_sbuf_line: the len bytes stored at seek.
    method Get(seek: nat, len: nat) returns (text: string)
      requires Valid() && seek + len <= |bytes|
      modifies this
      ensures Valid() && bytes == old(bytes)
      ensures text == bytes[seek..seek + len]
    {
      seekWrite := true;
      if sfseek != seek {
        sfseek := seek;
        Seek(seek);
      }
      text := Read(len);
      sfseek := sfseek + len;
    }

    // put_sbuf_line: append a line of text; `seek` is where it went.
    method Put(text: string) returns (seek: nat)
      requires Valid()
      modifies this
      ensures Valid()
      ensures seek == |old(bytes)| && bytes == old(bytes) + text
    {
      if seekWrite {
        Seek(|bytes|);
        sfseek := pos;
        seekWrite := false;
      }
      seek := sfseek;
      Write(text);
      sfseek := sfseek + |text|;
    }
  }

  datatype Request = PutRequest(text: string) | GetRequest(n: nat)

  // What the gets of a run of requests are to return.
  ghost function Answers(texts: seq<string>, reqs: seq<Request>): seq<string>
    decreases |reqs|
  {
    if |reqs| == 0 then []
    else match reqs[0]
      case PutRequest(text) => Answers(texts + [text], reqs[1..])
      case GetRequest(n) => (if n < |texts| then [texts[n]] else []) + Answers(texts, reqs[1..])
  }

  // Every text is where its put said.
  ghost predicate Holds(bytes: string, seeks: seq<nat>, lens: seq<nat>, texts: seq<string>) {
    && |seeks| == |lens| == |texts|
    && forall n :: 0 <= n < |texts| ==>
         seeks[n] + lens[n] <= |bytes| && bytes[seeks[n]..seeks[n] + lens[n]] == texts[n]
  }

  lemma HoldsNone(bytes: string)
    ensures Holds(bytes, [], [], [])
  {
  }

  lemma HoldsMore(bytes: string, seeks: seq<nat>, lens: seq<nat>, texts: seq<string>, text: string)
    requires Holds(bytes, seeks, lens, texts)
    ensures Holds(bytes + text, seeks + [|bytes|], lens + [|text|], texts + [text])
  {
    forall n | 0 <= n < |texts|
      ensures (bytes + text)[seeks[n]..seeks[n] + lens[n]] == texts[n]
    {
      assert (bytes + text)[seeks[n]..seeks[n] + lens[n]] == bytes[seeks[n]..seeks[n] + lens[n]];
    }
  }

  lemma HoldsAt(bytes: string, seeks: seq<nat>, lens: seq<nat>, texts: seq<string>, n: nat)
    requires Holds(bytes, seeks, lens, texts)
    ensures |seeks| == |lens| == |texts|
    ensures n < |texts| ==> seeks[n] + lens[n] <= |bytes| && bytes[seeks[n]..seeks[n] + lens[n]] == texts[n]
  {
  }

  lemma AnswersNone(texts: seq<string>)
    ensures Answers(texts, []) == []
  {
  }

  // The texts put, in order.
  function Puts(reqs: seq<Request>): seq<string> {
    if |reqs| == 0 then []
    else (if reqs[0].PutRequest? then [reqs[0].text] else []) + Puts(reqs[1..])
  }

  /** The last get of a run returns the n-th text put in it, whatever else was put and got. */
  lemma {:induction false} AnswersLast(texts: seq<string>, reqs: seq<Request>, n: nat)
    ensures var all := texts + Puts(reqs);
      Answers(texts, reqs + [GetRequest(n)]) == Answers(texts, reqs) + if n < |all| then [all[n]] else []
    decreases |reqs|
  {
    hide Answers;
    AnswersNone(texts);
    if |reqs| == 0 {
      AnswersFirst(texts, GetRequest(n), []);
      assert reqs + [GetRequest(n)] == [GetRequest(n)] + [] && texts + [] == texts;
    } else {
      var req, rest := reqs[0], reqs[1..];
      assert reqs == [req] + rest && reqs + [GetRequest(n)] == [req] + (rest + [GetRequest(n)]);
      AnswersFirst(texts, req, rest);
      AnswersFirst(texts, req, rest + [GetRequest(n)]);
      if req.PutRequest? {
        AnswersLast(texts + [req.text], rest, n);
        Assoc(texts, [req.text], Puts(rest));
      } else {
        AnswersLast(texts, rest, n);
        Nothing(Puts(rest));
      }
    }
  }

  lemma AnswersStep(texts: seq<string>, reqs: seq<Request>, k: nat)
    requires k < |reqs|
    ensures var req, todo, rest := reqs[k], Slice(reqs, k, |reqs| - k), Slice(reqs, k + 1, |reqs| - k - 1);
      Answers(texts, todo) ==
        if req.PutRequest? then Answers(texts + [req.text], rest)
        else (if req.n < |texts| then [texts[req.n]] else []) + Answers(texts, rest)
  {
    hide Slice, Answers;
    SliceFirst(reqs, k, |reqs| - k - 1);
    AnswersFirst(texts, reqs[k], Slice(reqs, k + 1, |reqs| - k - 1));
  }

  lemma AnswersFirst(texts: seq<string>, req: Request, rest: seq<Request>)
    ensures Answers(texts, [req] + rest) ==
      if req.PutRequest? then Answers(texts + [req.text], rest)
      else (if req.n < |texts| then [texts[req.n]] else []) + Answers(texts, rest)
  {
    assert ([req] + rest)[1..] == rest;
  }

  /** Any interleaving of puts and gets: every get returns the text that was put, never
      mind how often the file position moved in between. */
  method Interleave(reqs: seq<Request>) returns (answers: seq<string>)
    ensures answers == Answers([], reqs)
  {
    hide Slice, Holds, Answers, ScratchFile.Valid;
    var f := new ScratchFile();
    var seeks: seq<nat>, lens: seq<nat> := [], [];
    ghost var texts: seq<string> := [];
    answers := [];
    FromZero(reqs, |reqs|);
    assert reqs[..|reqs|] == reqs;
    Nothing(Answers(texts, reqs));
    HoldsNone(f.bytes);
    for k := 0 to |reqs|
      invariant f.Valid() && fresh(f) && Holds(f.bytes, seeks, lens, texts)
      invariant answers + Answers(texts, Slice(reqs, k, |reqs| - k)) == Answers([], reqs)
    {
      ghost var rest := Slice(reqs, k + 1, |reqs| - k - 1);
      AnswersStep(texts, reqs, k);
      match reqs[k]
      case PutRequest(text) =>
        HoldsMore(f.bytes, seeks, lens, texts, text);
        var seek := f.Put(text);
        seeks, lens, texts := seeks + [seek], lens + [|text|], texts + [text];
      case GetRequest(n) =>
        HoldsAt(f.bytes, seeks, lens, texts, n);
        if n < |seeks| {
          var text := f.Get(seeks[n], lens[n]);
          Assoc(answers, [text], Answers(texts, rest));
          answers := answers + [text];
        } else {
          Nothing(Answers(texts, rest));
        }
    }
    SliceNone(reqs, |reqs|);
    AnswersNone(texts);
    Nothing(answers);
  }
}
