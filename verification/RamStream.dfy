/**
 The migration stream of arch_init.c: what the source puts on it and what it
 does to the memory of the destination.
*/
module RamStream {
  import opened Options
  import opened Geometry
  import opened Xbzrle

  type Page = p: seq<byte> | |p| == PAGE_SIZE
    ghost witness seq(PAGE_SIZE, _ => 0)

  function ZeroPage(): (p: Page)
    ensures forall i | 0 <= i < PAGE_SIZE :: p[i] == 0
  {
    seq(PAGE_SIZE, _ => 0)
  }

  // save_block_hdr: with RAM_SAVE_FLAG_CONTINUE the block name is left out.
  datatype Header = Continue(offset: nat) | Named(id: string, offset: nat)

  // qemu_put_buffer copies; qemu_put_buffer_async reads the guest page when it is flushed.
  datatype Payload = Copied(page: Page) | Live(no: nat)

  datatype Msg =
    | ZeroMsg(h: Header)
    | PageMsg(h: Header, data: Payload)
    | XbzrleMsg(h: Header, delta: seq<byte>)

  predicate IsLive(m: Msg) {
    m.PageMsg? && m.data.Live?
  }

  // The bytes a message takes on the wire, as ram_save_page and save_xbzrle_page count them.
  function MsgBytes(m: Msg): (n: nat)
    ensures n > 0
  {
    (match m.h case Continue(_) => 8 case Named(id, _) => 8 + 1 + |id|)
    + match m
      case ZeroMsg(_) => 1
      case PageMsg(_, _) => PAGE_SIZE
      case XbzrleMsg(_, delta) => 1 + 2 + |delta|
  }

  // Nothing was sent, or one message of so many bytes.
  predicate Sent(before: seq<Msg>, after: seq<Msg>, bytes: int) {
    if bytes == 0 then after == before
    else |after| == |before| + 1 && after[..|before|] == before && bytes == MsgBytes(after[|before|])
  }

  // A page is named by its block and its number in the block.
  type Key = (string, nat)

  // host_from_stream_offset: the block that the receiver has in hand after the header.
  function RecvAfter(m: Msg, recv: Option<string>): Option<string> {
    match m.h
    case Continue(_) => recv
    case Named(id, _) => Some(id)
  }

  predicate Hits(m: Msg, recv: Option<string>, key: Key) {
    RecvAfter(m, recv) == Some(key.0) && m.h.offset == key.1
  }

  /** What a page of the destination will hold once the stream is played: known
      bytes, or what the source page `no` holds when the stream is flushed, or
      nothing, because the load was aborted. */
  datatype Content = Known(page: Page) | Tracks(no: nat) | Broken

  function Update(m: Msg, c: Content): Content {
    if c.Broken? then Broken
    else match m
    case ZeroMsg(_) => Known(ZeroPage())
    case PageMsg(_, Copied(page)) => Known(page)
    case PageMsg(_, Live(no)) => Tracks(no)
    case XbzrleMsg(_, delta) =>
      if c.Known? && |delta| <= PAGE_SIZE && Apply(delta, c.page, 0, true).0 then
        Known(Apply(delta, c.page, 0, true).1)
      else
        Broken
  }

  function Outcome(stream: seq<Msg>, recv: Option<string>, key: Key, c: Content): Content {
    if stream == [] then c
    else
      Outcome(stream[1..], RecvAfter(stream[0], recv), key,
              if Hits(stream[0], recv, key) then Update(stream[0], c) else c)
  }

  function RecvEnd(stream: seq<Msg>, recv: Option<string>): Option<string> {
    if stream == [] then recv else RecvEnd(stream[1..], RecvAfter(stream[0], recv))
  }

  lemma {:induction false} AppendMsg(stream: seq<Msg>, m: Msg, recv: Option<string>, key: Key, c: Content)
    ensures RecvEnd(stream + [m], recv) == RecvAfter(m, RecvEnd(stream, recv))
    ensures Outcome(stream + [m], recv, key, c) ==
            if Hits(m, RecvEnd(stream, recv), key) then Update(m, Outcome(stream, recv, key, c))
            else Outcome(stream, recv, key, c)
  {
    if stream == [] {
      assert (stream + [m])[1..] == [];
      assert Outcome([], RecvAfter(m, recv), key, if Hits(m, recv, key) then Update(m, c) else c) ==
             if Hits(m, recv, key) then Update(m, c) else c;
    } else {
      assert (stream + [m])[1..] == stream[1..] + [m];
      AppendMsg(stream[1..], m, RecvAfter(stream[0], recv), key,
                if Hits(stream[0], recv, key) then Update(stream[0], c) else c);
    }
  }

  lemma {:induction false} BrokenStays(stream: seq<Msg>, recv: Option<string>, key: Key)
    ensures Outcome(stream, recv, key, Broken) == Broken
  {
    if stream != [] {
      BrokenStays(stream[1..], RecvAfter(stream[0], recv), key);
    }
  }

  // Two views of a page that agree, or the second has just read what the first still tracks.
  predicate Firmer(c: Content, c': Content, no: nat, page: Page) {
    c' == c || (c == Tracks(no) && c' == Known(page))
  }

  lemma {:induction false} OutcomeFirmer(stream: seq<Msg>, recv: Option<string>, key: Key, c: Content, c': Content,
                                         no: nat, page: Page)
    requires Firmer(c, c', no, page) && Outcome(stream, recv, key, c) != Broken
    ensures Firmer(Outcome(stream, recv, key, c), Outcome(stream, recv, key, c'), no, page)
  {
    if stream != [] {
      var m := stream[0];
      if Hits(m, recv, key) {
        if m.XbzrleMsg? && c != c' {
          BrokenStays(stream[1..], RecvAfter(m, recv), key);
          assert false;
        } else {
          OutcomeFirmer(stream[1..], RecvAfter(m, recv), key, Update(m, c), Update(m, c'), no, page);
        }
      } else {
        OutcomeFirmer(stream[1..], RecvAfter(m, recv), key, c, c', no, page);
      }
    }
  }

  // Flushing message k reads the guest page it refers to.
  lemma {:induction false} FlushMsg(stream: seq<Msg>, k: nat, recv: Option<string>, key: Key, c: Content, no: nat,
                                    page: Page)
    requires k < |stream| && stream[k].PageMsg? && stream[k].data == Live(no)
    requires Outcome(stream, recv, key, c) != Broken
    ensures var stream' := stream[k := stream[k].(data := Copied(page))];
            && RecvEnd(stream', recv) == RecvEnd(stream, recv)
            && Firmer(Outcome(stream, recv, key, c), Outcome(stream', recv, key, c), no, page)
  {
    var m := stream[0];
    var m' := stream[k].(data := Copied(page));
    var c1 := if Hits(m, recv, key) then Update(m, c) else c;
    if k == 0 {
      assert stream[0 := m'][1..] == stream[1..];
      var c1' := if Hits(m', recv, key) then Update(m', c) else c;
      OutcomeFirmer(stream[1..], RecvAfter(m, recv), key, c1, c1', no, page);
    } else {
      assert stream[k := m'][1..] == stream[1..][k - 1 := m'];
      FlushMsg(stream[1..], k - 1, RecvAfter(m, recv), key, c1, no, page);
    }
  }

  // The message names a page of the destination, and a live payload a page of the source.
  predicate Sound(m: Msg, recv: Option<string>, keys: set<Key>, pages: nat) {
    && RecvAfter(m, recv).Some? && (RecvAfter(m, recv).value, m.h.offset) in keys
    && (m.PageMsg? && m.data.Live? ==> m.data.no < pages)
  }

  // Every message finds its page: host_from_stream_offset never fails.
  predicate Playable(stream: seq<Msg>, recv: Option<string>, keys: set<Key>, pages: nat) {
    stream != [] ==>
        Sound(stream[0], recv, keys, pages) && Playable(stream[1..], RecvAfter(stream[0], recv), keys, pages)
  }

  lemma {:induction false} AppendPlayable(stream: seq<Msg>, m: Msg, recv: Option<string>, keys: set<Key>, pages: nat)
    requires Playable(stream, recv, keys, pages) && Sound(m, RecvEnd(stream, recv), keys, pages)
    ensures Playable(stream + [m], recv, keys, pages)
  {
    if stream == [] {
      assert (stream + [m])[1..] == [];
    } else {
      assert (stream + [m])[1..] == stream[1..] + [m];
      AppendPlayable(stream[1..], m, RecvAfter(stream[0], recv), keys, pages);
    }
  }

  lemma {:induction false} FlushPlayable(stream: seq<Msg>, k: nat, recv: Option<string>, keys: set<Key>, pages: nat,
                                         page: Page)
    requires k < |stream| && stream[k].PageMsg? && Playable(stream, recv, keys, pages)
    ensures Playable(stream[k := stream[k].(data := Copied(page))], recv, keys, pages)
  {
    var m' := stream[k].(data := Copied(page));
    if k == 0 {
      assert stream[0 := m'][1..] == stream[1..];
    } else {
      assert stream[k := m'][1..] == stream[1..][k - 1 := m'];
      FlushPlayable(stream[1..], k - 1, RecvAfter(stream[0], recv), keys, pages, page);
    }
  }

  lemma {:induction false} PlayableLive(stream: seq<Msg>, k: nat, recv: Option<string>, keys: set<Key>, pages: nat)
    requires k < |stream| && Playable(stream, recv, keys, pages)
    ensures stream[k].PageMsg? && stream[k].data.Live? ==> stream[k].data.no < pages
  {
    if k != 0 {
      PlayableLive(stream[1..], k - 1, RecvAfter(stream[0], recv), keys, pages);
    }
  }
}
