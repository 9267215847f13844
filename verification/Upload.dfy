/** Sending a file to the server in blocks: Client::LoadFile (src/cncclient.cpp:609-649) and Server::SendInit, SendData
    and DeleteTemp (src/cncserver.cpp:473-476, 493-559). A file is its bytes. A temporary file opened in text mode, as
    on Windows, stores a line feed as carriage return and line feed. */
module Upload {
  import opened XmlUtil
  import opened CncComms

  /** A `FILE*`: null, open, or left pointing at a file that has been closed. */
  datatype Handle = NullFile | OpenFile | ClosedFile

  /** What the operating system gives when a temporary file is asked for: nothing, a file that cannot be opened, or an
      open one. */
  datatype TempFile = NoName | NoHandle(made: string) | Opened(path: string)

  /** The server's file fields, the bytes of the current file, and the temporary files there are. `undefined`: a closed
      handle has been used, after which the C++ promises nothing. */
  datatype Session = Session(
    handle: Handle, curFile: string, curBlock: int, content: string, files: set<string>, undefined: bool)

  const START := Session(NullFile, "", 0, "", {}, false)

  // ---------- blocks ----------

  /** The blocks a file is read in: full ones, and a last one that is short, if only by being empty. */
  function Blocks(file: string): seq<string> {
    if |file| < FILE_BLOCK_SIZE then [file] else [file[..FILE_BLOCK_SIZE]] + Blocks(file[FILE_BLOCK_SIZE..])
  }

  function Concat(blocks: seq<string>): string {
    if blocks == [] then "" else blocks[0] + Concat(blocks[1..])
  }

  lemma {:induction false} BlocksRebuildTheFile(file: string)
    ensures Concat(Blocks(file)) == file
  {
    if |file| < FILE_BLOCK_SIZE {
      assert [file][1..] == [];
    } else {
      var head, rest := file[..FILE_BLOCK_SIZE], Blocks(file[FILE_BLOCK_SIZE..]);
      BlocksRebuildTheFile(file[FILE_BLOCK_SIZE..]);
      assert ([head] + rest)[1..] == rest;
    }
  }

  lemma {:induction false} OnlyTheLastBlockIsShort(file: string)
    ensures |Blocks(file)| == |file| / FILE_BLOCK_SIZE + 1
    ensures forall i :: 0 <= i < |Blocks(file)| - 1 ==> |Blocks(file)[i]| == FILE_BLOCK_SIZE
    ensures |Blocks(file)[|Blocks(file)| - 1]| == |file| % FILE_BLOCK_SIZE < FILE_BLOCK_SIZE
  {
    if |file| >= FILE_BLOCK_SIZE {
      OnlyTheLastBlockIsShort(file[FILE_BLOCK_SIZE..]);
    }
  }

  // ---------- what is stored ----------

  function Stored(text: bool, s: string): string {
    if s == [] then "" else (if text && s[0] == LF then [CR, LF] else [s[0]]) + Stored(text, s[1..])
  }

  lemma {:induction false} StoredAppend(text: bool, a: string, b: string)
    ensures Stored(text, a + b) == Stored(text, a) + Stored(text, b)
  {
    if a == [] {
      assert a + b == b;
    } else {
      assert (a + b)[1..] == a[1..] + b;
      StoredAppend(text, a[1..], b);
    }
  }

  /** In text mode every line feed is stored as carriage return and line feed, and everything else as it is. */
  lemma StoredIs(a: string, b: string)
    requires LF !in a
    ensures Stored(true, a + "\n" + b) == a + "\r\n" + Stored(true, b)
    ensures Stored(true, a) == a && Stored(false, a + "\n" + b) == a + "\n" + b
  {
    StoredAsIsExactlyWhen(true, a);
    StoredAsIsExactlyWhen(false, a + "\n" + b);
    StoredAppend(true, a + "\n", b);
    StoredAppend(true, a, "\n");
    LineFeedStored();
  }

  lemma LineFeedStored()
    ensures Stored(true, "\n") == "\r\n"
  {
    assert "\n"[1..] == "";
    assert Stored(true, "") == "";
  }

  /** A file is stored as it is exactly when the handle is binary or there is no line feed to translate. */
  lemma {:induction false} StoredAsIsExactlyWhen(text: bool, s: string)
    ensures Stored(text, s) == s <==> !text || LF !in s
    ensures |Stored(text, s)| >= |s|
  {
    if s != [] {
      StoredAsIsExactlyWhen(text, s[1..]);
      var head := if text && s[0] == LF then [CR, LF] else [s[0]];
      assert s == [s[0]] + s[1..];
      if head == [s[0]] {
        assert Stored(text, s)[1..] == Stored(text, s[1..]);
      } else {
        assert Stored(text, s)[0] == CR;
      }
    }
  }

  // ---------- the server ----------

  /** Closing through `handle`: undefined when the file has been closed already. */
  function Close(s: Session): Session {
    s.(handle := ClosedFile, undefined := s.undefined || s.handle.ClosedFile?)
  }

  /** The temporary files once the current one has been removed; its name is kept. */
  function Removed(s: Session): set<string> {
    if s.curFile == "" then s.files else s.files - {s.curFile}
  }

  function Delete(s: Session): Session {
    (if s.handle.NullFile? then s else Close(s)).(files := Removed(s))
  }

  function Init(s: Session, os: TempFile): Session {
    var t := Delete(s).(curBlock := 0);
    match os
    case NoName => t
    case NoHandle(made) => t.(handle := NullFile, files := t.files + {made})
    case Opened(path) => t.(handle := OpenFile, curFile := path, content := "", files := t.files + {path})
  }

  /** One SendData, of whose bytes the file system takes `wrote`. */
  datatype Block = Block(data: string, number: int, wrote: nat)

  function Taken(b: Block): nat {
    if b.wrote < |b.data| then b.wrote else |b.data|
  }

  predicate Accepts(s: Session, b: Block) {
    !s.handle.NullFile? && b.number == s.curBlock && b.wrote >= |b.data|
  }

  function Send(s: Session, b: Block, text: bool): Session {
    if s.handle.NullFile? then s
    else if b.number != s.curBlock then Close(s)
    else
      var t := s.(curBlock := b.number + 1, undefined := s.undefined || s.handle.ClosedFile?,
                  content := s.content + Stored(text, b.data[..Taken(b)]));
      if b.wrote < |b.data| || |b.data| < FILE_BLOCK_SIZE then Close(t) else t
  }

  class Server {
    var file: Handle
    var curFile: string
    var curBlock: int
    var content: string
    var files: set<string>
    var undefined: bool
    const text: bool

    constructor (text: bool)
      ensures Value() == START && this.text == text
    {
      file, curFile, curBlock, content, files, undefined := NullFile, "", 0, "", {}, false;
      this.text := text;
    }

    function Value(): Session
      reads this
    {
      Session(file, curFile, curBlock, content, files, undefined)
    }

    method CloseHandle()
      modifies this
      ensures Value() == Close(old(Value()))
    {
      undefined := undefined || file.ClosedFile?;
      file := ClosedFile;
    }

    method DeleteTemp()
      modifies this
      ensures Value() == Delete(old(Value()))
    {
      if !file.NullFile? {
        CloseHandle();
      }
      if curFile == "" {
        return;
      }
      files := files - {curFile};
    }

    method SendInit(os: TempFile) returns (path: string)
      modifies this
      ensures Value() == Init(old(Value()), os)
      ensures path == if os.Opened? then os.path else ""
      ensures curBlock == 0 && (undefined <==> old(undefined) || old(file).ClosedFile?)
      ensures if os.Opened? then file == OpenFile && curFile == os.path && content == ""
        else file != OpenFile && curFile == old(curFile) && content == old(content)
      ensures forall x :: x in files <==>
        (x in old(files) && (x != old(curFile) || x == "")) || os == NoHandle(x) || os == Opened(x)
    {
      DeleteTemp();
      curBlock := 0;
      match os {
        case NoName => return "";
        case NoHandle(made) =>
          file, files := NullFile, files + {made};
          return "";
        case Opened(p) =>
          file, content, files := OpenFile, "", files + {p};
          curFile := p;
          return p;
      }
    }

    method SendData(b: Block) returns (ok: bool)
      modifies this
      ensures Value() == Send(old(Value()), b, text)
      ensures ok == Accepts(old(Value()), b)
      ensures ok <==> old(file) != NullFile && b.number == old(curBlock) && b.wrote >= |b.data|
      ensures file == OpenFile <==> old(file) == OpenFile && ok && |b.data| >= 16000
      ensures curBlock == if old(file) != NullFile && b.number == old(curBlock) then b.number + 1 else old(curBlock)
      ensures content == if old(file) == NullFile || b.number != old(curBlock) then old(content)
        else old(content) + Stored(text, if b.wrote < |b.data| then b.data[..b.wrote] else b.data)
      ensures undefined <==> old(undefined) || old(file).ClosedFile?
      ensures curFile == old(curFile) && files == old(files)
    {
      if file.NullFile? {
        return false;
      }
      if b.number != curBlock {
        CloseHandle();
        return false;
      }
      curBlock := b.number + 1;
      var wrote := if b.wrote < |b.data| then b.wrote else |b.data|;
      undefined := undefined || file.ClosedFile?;
      assert b.data[..|b.data|] == b.data;
      content := content + Stored(text, b.data[..wrote]);
      if wrote != |b.data| {
        CloseHandle();
        return false;
      }
      if |b.data| < FILE_BLOCK_SIZE {
        CloseHandle();
      }
      return true;
    }
  }

  // ---------- any sequence of blocks ----------

  function SendAll(s: Session, bs: seq<Block>, text: bool): Session
    decreases |bs|
  {
    if bs == [] then s else Send(SendAll(s, bs[..|bs| - 1], text), bs[|bs| - 1], text)
  }

  function Datas(bs: seq<Block>): string
    decreases |bs|
  {
    if bs == [] then "" else Datas(bs[..|bs| - 1]) + bs[|bs| - 1].data
  }

  /** The session a successful first SendInit begins. */
  function Begun(path: string): Session {
    Session(OpenFile, path, 0, "", {path}, false)
  }

  predicate Keeps(b: Block, i: nat) {
    b.number == i && b.wrote >= |b.data| >= FILE_BLOCK_SIZE
  }

  /** A block is accepted in a session that is open exactly when it is the next one and is written completely; before
      any session, and after a file could not be opened, nothing is. */
  lemma AcceptedExactlyWhen(path: string, bs: seq<Block>, b: Block, text: bool)
    ensures SendAll(Begun(path), bs, text).handle.OpenFile? ==>
      (Accepts(SendAll(Begun(path), bs, text), b) <==> b.number == |bs| && b.wrote >= |b.data|)
    ensures !Accepts(START, b) && !Accepts(Init(SendAll(Begun(path), bs, text), NoHandle(path)), b)
  {
    OpenExactlyWhen(path, bs, text);
  }

  /** A session is still open exactly while its blocks came in order, full and completely written; the file then holds
      them in that order. */
  lemma {:induction false} OpenExactlyWhen(path: string, bs: seq<Block>, text: bool)
    ensures var s := SendAll(Begun(path), bs, text);
      && (s.handle.OpenFile? <==> forall i :: 0 <= i < |bs| ==> Keeps(bs[i], i))
      && !s.handle.NullFile?
      && (s.handle.OpenFile? ==> s == Session(OpenFile, path, |bs|, Stored(text, Datas(bs)), {path}, false))
    decreases |bs|
  {
    if bs != [] {
      var n := |bs| - 1;
      OpenExactlyWhen(path, bs[..n], text);
      assert forall i :: 0 <= i < n ==> bs[..n][i] == bs[i];
      StoredAppend(text, Datas(bs[..n]), bs[n].data);
      assert bs[n].data[..|bs[n].data|] == bs[n].data;
    }
  }

  /** The block that closes a session: out of order it leaves the file as it was, cut short by the file system it adds
      what was written, and short by itself it is the last to be added. */
  lemma ClosingBlock(path: string, bs: seq<Block>, b: Block, text: bool)
    requires SendAll(Begun(path), bs, text).handle.OpenFile? && !Keeps(b, |bs|)
    ensures var s := SendAll(Begun(path), bs + [b], text);
      && s.handle.ClosedFile? && !s.undefined
      && s.content == Stored(text, Datas(bs) + if b.number != |bs| then "" else b.data[..Taken(b)])
      && (Accepts(SendAll(Begun(path), bs, text), b) ==> s.content == Stored(text, Datas(bs + [b])))
  {
    OpenExactlyWhen(path, bs, text);
    assert (bs + [b])[..|bs|] == bs;
    StoredAppend(text, Datas(bs), if b.number != |bs| then "" else b.data[..Taken(b)]);
    assert b.data[..|b.data|] == b.data && Datas(bs) + "" == Datas(bs);
  }

  /** The first call after a session has closed is the one that uses the closed handle. */
  lemma {:induction false} UndefinedExactlyAfterClose(path: string, bs: seq<Block>, text: bool)
    ensures SendAll(Begun(path), bs, text).undefined <==>
      bs != [] && SendAll(Begun(path), bs[..|bs| - 1], text).handle.ClosedFile?
    decreases |bs|
  {
    OpenExactlyWhen(path, bs, text);
    if bs != [] {
      UndefinedExactlyAfterClose(path, bs[..|bs| - 1], text);
      OpenExactlyWhen(path, bs[..|bs| - 1], text);
    }
  }

  /** SendInit keeps to what the C++ defines exactly when no closed handle is left over. */
  lemma InitDefinedExactlyWhen(s: Session, os: TempFile)
    requires !s.undefined
    ensures !Init(s, os).undefined <==> !s.handle.ClosedFile?
  {
  }

  // ---------- the temporary files over any sequence of calls ----------

  datatype Request = InitRequest(os: TempFile) | DataRequest(block: Block)

  function Serve(s: Session, r: Request, text: bool): Session {
    match r
    case InitRequest(os) => Init(s, os)
    case DataRequest(b) => Send(s, b, text)
  }

  function ServeAll(rs: seq<Request>, text: bool): Session
    decreases |rs|
  {
    if rs == [] then START else Serve(ServeAll(rs[..|rs| - 1], text), rs[|rs| - 1], text)
  }

  /** The files that were made for a SendInit but could not be opened. */
  function Unopened(rs: seq<Request>): set<string>
    decreases |rs|
  {
    if rs == [] then {}
    else
      var r := rs[|rs| - 1];
      Unopened(rs[..|rs| - 1]) + if r.InitRequest? && r.os.NoHandle? then {r.os.made} else {}
  }

  /** Whatever clients ask for, and in whatever order, no temporary file is left but the current one and those that
      could not be opened; the server's destructor removes the current one too. The empty string names no file. */
  lemma {:induction false} OneTemporaryFile(rs: seq<Request>, text: bool)
    ensures var s := ServeAll(rs, text);
      s.files <= Unopened(rs) + {s.curFile, ""} && Delete(s).files <= Unopened(rs) + {""}
    decreases |rs|
  {
    hide Send;
    if rs != [] {
      var before, r := rs[..|rs| - 1], rs[|rs| - 1];
      OneTemporaryFile(before, text);
      if r.DataRequest? {
        SendKeepsFiles(ServeAll(before, text), r.block, text);
      }
    }
  }

  /** One request, and what is left afterwards if the server is then destroyed. */
  lemma LeftByRequest(s: Session, r: Request, text: bool, x: string)
    requires x != ""
    ensures var t := Serve(s, r, text);
      x in Delete(t).files <==>
        t.curFile != x && (x in Delete(s).files || (r.InitRequest? && r.os == NoHandle(x)))
    ensures r.DataRequest? ==> Serve(s, r, text).curFile == s.curFile
  {
    hide Send;
    if r.DataRequest? {
      SendKeepsFiles(s, r.block, text);
    }
  }

  /** Request `i` made the file `x` without opening it, and from then on the server's current file never had that
      name. */
  predicate LostAt(rs: seq<Request>, text: bool, x: string, i: nat)
    requires i < |rs|
  {
    && rs[i].InitRequest? && rs[i].os == NoHandle(x)
    && forall j :: i < j <= |rs| ==> ServeAll(rs[..j], text).curFile != x
  }

  lemma LostUntilNow(rs: seq<Request>, text: bool, x: string, i: nat)
    requires i < |rs| - 1
    ensures LostAt(rs, text, x, i) <==> LostAt(rs[..|rs| - 1], text, x, i) && ServeAll(rs, text).curFile != x
  {
    hide ServeAll;
    var before := rs[..|rs| - 1];
    assert rs[..|rs|] == rs;
    assert forall j :: i < j < |rs| ==> before[..j] == rs[..j];
  }

  /** Exactly which files the server leaves behind, over every sequence of calls and whatever names it is given: those
      made but not opened, unless its current file came to have the same name. */
  lemma {:induction false} LeftBehindExactlyWhen(rs: seq<Request>, text: bool, x: string)
    requires x != ""
    ensures x in Delete(ServeAll(rs, text)).files <==> exists i :: 0 <= i < |rs| && LostAt(rs, text, x, i)
    decreases |rs|
  {
    hide Serve, Delete, LostAt;
    if rs == [] {
      NothingAtFirst(text);
    } else {
      var n := |rs| - 1;
      var before := rs[..n];
      LeftBehindExactlyWhen(before, text, x);
      LeftByRequest(ServeAll(before, text), rs[n], text, x);
      LostNow(rs, text, x);
      forall i | 0 <= i < n
        ensures LostAt(rs, text, x, i) <==> LostAt(before, text, x, i) && ServeAll(rs, text).curFile != x
      {
        LostUntilNow(rs, text, x, i);
      }
    }
  }

  lemma NothingAtFirst(text: bool)
    ensures Delete(ServeAll([], text)).files == {}
  {
  }

  lemma LostNow(rs: seq<Request>, text: bool, x: string)
    requires rs != []
    ensures var r := rs[|rs| - 1];
      LostAt(rs, text, x, |rs| - 1) <==> r.InitRequest? && r.os == NoHandle(x) && ServeAll(rs, text).curFile != x
  {
    hide ServeAll;
    assert rs[..|rs|] == rs;
  }

  /** The names the operating system has given. */
  function Given(rs: seq<Request>): set<string>
    decreases |rs|
  {
    if rs == [] then {} else Given(rs[..|rs| - 1]) + NameOf(rs[|rs| - 1])
  }

  function NameOf(r: Request): set<string> {
    match r
    case InitRequest(NoHandle(made)) => {made}
    case InitRequest(Opened(path)) => {path}
    case _ => {}
  }

  /** It never gives a name twice, nor the empty one. */
  predicate NamesAreNew(rs: seq<Request>)
    decreases |rs|
  {
    rs == [] ||
    (var before, names := rs[..|rs| - 1], NameOf(rs[|rs| - 1]);
     NamesAreNew(before) && names !! Given(before) && "" !in names)
  }

  /** Then the server leaves behind exactly the files that could not be opened. */
  lemma {:induction false} UnopenedStay(rs: seq<Request>, text: bool)
    requires NamesAreNew(rs)
    ensures var s := ServeAll(rs, text);
      && Delete(s).files == Unopened(rs) && s.curFile !in Unopened(rs)
      && Unopened(rs) <= Given(rs) && s.curFile in Given(rs) + {""} && "" !in Given(rs)
    decreases |rs|
  {
    hide Send;
    if rs != [] {
      var before, r := rs[..|rs| - 1], rs[|rs| - 1];
      UnopenedStay(before, text);
      if r.DataRequest? {
        SendKeepsFiles(ServeAll(before, text), r.block, text);
      }
    }
  }

  /** And nothing at all exactly when every SendInit got a file it could open, or none. */
  lemma NothingLeftExactlyWhen(rs: seq<Request>, text: bool)
    requires NamesAreNew(rs)
    ensures Delete(ServeAll(rs, text)).files == {} <==>
      forall i :: 0 <= i < |rs| ==> !(rs[i].InitRequest? && rs[i].os.NoHandle?)
  {
    hide ServeAll, Delete;
    UnopenedStay(rs, text);
    UnopenedMembers(rs);
  }

  lemma {:induction false} UnopenedMembers(rs: seq<Request>)
    ensures forall i :: 0 <= i < |rs| && rs[i].InitRequest? && rs[i].os.NoHandle? ==> rs[i].os.made in Unopened(rs)
    ensures Unopened(rs) != {} ==> exists i :: 0 <= i < |rs| && rs[i].InitRequest? && rs[i].os.NoHandle?
    decreases |rs|
  {
    if rs != [] {
      var before, r := rs[..|rs| - 1], rs[|rs| - 1];
      UnopenedMembers(before);
      assert forall i :: 0 <= i < |before| ==> rs[i] == before[i];
      if Unopened(before) != {} {
        var i :| 0 <= i < |before| && before[i].InitRequest? && before[i].os.NoHandle?;
        assert rs[i] == before[i];
      }
    }
  }

  /** A file that could not be opened stays, when the next one has another name. */
  lemma UnopenedStays(made: string, path: string, text: bool)
    requires made != "" && made != path
    ensures var s := ServeAll([InitRequest(NoHandle(made)), InitRequest(Opened(path))], text);
      s.curFile == path && made in Delete(s).files
  {
    var first, both := InitRequest(NoHandle(made)), [InitRequest(NoHandle(made)), InitRequest(Opened(path))];
    assert both[..1] == [first] && [first][..0] == [];
    assert ServeAll([first], text) == Serve(ServeAll([], text), first, text);
  }

  lemma SendKeepsFiles(s: Session, b: Block, text: bool)
    ensures Send(s, b, text).files == s.files && Send(s, b, text).curFile == s.curFile
  {
  }

  // ---------- the client ----------

  /** What becomes of a remote call: answered, or lost with the request handled or not. */
  datatype Net = Answered | Lost(handled: bool)

  /** What the environment does with one upload. */
  datatype Env = Env(init: Net, os: TempFile, block: nat -> Net, wrote: nat -> nat, load: Net, loaded: bool)

  /** Every block gets through and is written. */
  predicate AllArrive(e: Env, blocks: seq<string>, first: nat) {
    forall i :: 0 <= i < |blocks| ==> e.block(first + i).Answered? && e.wrote(first + i) >= |blocks[i]|
  }

  /** Block `k` is the first that does not arrive. */
  predicate StopsAt(e: Env, blocks: seq<string>, k: nat)
    requires k < |blocks|
  {
    && (forall i :: 0 <= i < k ==> e.block(i).Answered? && e.wrote(i) >= |blocks[i]|)
    && !(e.block(k).Answered? && e.wrote(k) >= |blocks[k]|)
  }

  predicate Succeeds(e: Env, connected: bool, local: bool, file: Option<string>) {
    && connected && e.load.Answered? && e.loaded
    && (!local ==>
          file.Some? && e.init.Answered? && e.os.Opened? && e.os.path != "" && AllArrive(e, Blocks(file.value), 0))
  }

  /** All blocks of a file are answered and completely written: the full ones of 16000 bytes, and the rest. */
  predicate EveryBlockArrives(e: Env, file: string) {
    forall i: nat :: i <= |file| / 16000 ==>
      e.block(i).Answered? && e.wrote(i) >= if i < |file| / 16000 then 16000 else |file| % 16000
  }

  lemma ArriveExactlyWhen(e: Env, file: string)
    ensures AllArrive(e, Blocks(file), 0) <==> EveryBlockArrives(e, file)
  {
    OnlyTheLastBlockIsShort(file);
    var blocks := Blocks(file);
    if AllArrive(e, blocks, 0) {
      forall i: nat | i <= |file| / 16000
        ensures e.block(i).Answered? && e.wrote(i) >= if i < |file| / 16000 then 16000 else |file| % 16000
      {
        assert e.block(0 + i).Answered? && e.wrote(0 + i) >= |blocks[i]|;
      }
    }
  }

  /** Client::LoadFile. `file` is what opening the client's own file gives. */
  method LoadFile(connected: bool, local: bool, file: Option<string>, server: Server, e: Env)
    returns (ok: bool, calls: nat)
    modifies server
    ensures ok == Succeeds(e, connected, local, file)
    ensures ok ==> connected && e.load.Answered? && e.loaded
    ensures local ==> (ok <==> connected && e.load.Answered? && e.loaded)
    ensures !local ==>
      (ok <==>
        && connected && file.Some? && e.init.Answered? && e.os.Opened? && e.os.path != ""
        && EveryBlockArrives(e, file.value) && e.load.Answered? && e.loaded)
    ensures ok && !local ==> calls == |file.value| / 16000 + 1
    ensures ok && !local && !old(server.file).ClosedFile? && !old(server.undefined) ==>
      server.Value() == Session(ClosedFile, e.os.path, calls, Stored(server.text, file.value),
                                Removed(old(server.Value())) + {e.os.path}, false)
  {
    if file.Some? {
      ArriveExactlyWhen(e, file.value);
    }
    calls := 0;
    if !connected {
      return false, 0;
    }
    if !local {
      if file.None? {
        return false, 0;
      }
      var path := "";
      if e.init.Answered? || e.init.handled {
        path := server.SendInit(e.os);
      }
      if e.init.Lost? || path == "" {
        return false, 0;
      }
      var sent;
      sent, calls := SendBlocks(file.value, server, e);
      if !sent {
        return false, calls;
      }
      OnlyTheLastBlockIsShort(file.value);
    }
    return e.load.Answered? && e.loaded, calls;
  }

  /** One SendData call of the loop. */
  method SendBlock(data: string, block: nat, server: Server, e: Env) returns (accepted: bool)
    requires server.file.OpenFile? && server.curBlock == block && |data| <= FILE_BLOCK_SIZE
    modifies server
    ensures accepted == (e.block(block).Answered? && e.wrote(block) >= |data|)
    ensures accepted ==> server.Value() == old(server.Value()).(
      handle := if |data| < FILE_BLOCK_SIZE then ClosedFile else OpenFile, curBlock := block + 1,
      content := old(server.content) + Stored(server.text, data))
  {
    hide Stored;
    accepted := false;
    assert data[..|data|] == data;
    if e.block(block).Answered? || e.block(block).handled {
      accepted := server.SendData(Block(data, block, e.wrote(block)));
    }
    accepted := accepted && e.block(block).Answered?;
  }

  /** Its loop: read a block, send it, go on while the block was full. */
  method SendBlocks(file: string, server: Server, e: Env) returns (ok: bool, block: nat)
    requires server.file.OpenFile? && server.curBlock == 0 && server.content == ""
    modifies server
    ensures ok == AllArrive(e, Blocks(file), 0)
    ensures ok ==> block == |Blocks(file)|
    ensures !ok ==> 0 < block <= |Blocks(file)| && StopsAt(e, Blocks(file), block - 1)
    ensures ok ==> server.Value() == Session(ClosedFile, old(server.curFile), block, Stored(server.text, file),
                                             old(server.files), old(server.undefined))
  {
    hide Stored, Blocks;
    block := 0;
    var pos, bytes := 0, FILE_BLOCK_SIZE;
    ghost var all := Blocks(file);
    assert file[0..] == file && file[..0] == "" && Stored(server.text, "") == "" by { NothingStored(server.text); }
    while bytes == FILE_BLOCK_SIZE
      invariant pos <= |file| && bytes <= FILE_BLOCK_SIZE && block <= |all|
      invariant bytes == FILE_BLOCK_SIZE ==> all[block..] == Blocks(file[pos..])
      invariant bytes < FILE_BLOCK_SIZE ==> pos == |file| && block == |all|
      invariant forall i :: 0 <= i < block ==> e.block(i).Answered? && e.wrote(i) >= |all[i]|
      invariant server.Value() == Session(if bytes == FILE_BLOCK_SIZE then OpenFile else ClosedFile,
        old(server.curFile), block, Stored(server.text, file[..pos]), old(server.files), old(server.undefined))
      decreases |file| - pos + bytes
    {
      bytes := if |file| - pos < FILE_BLOCK_SIZE then |file| - pos else FILE_BLOCK_SIZE;
      var data := file[pos..pos + bytes];
      StoredAppend(server.text, file[..pos], data);
      NextBlock(file, pos, bytes);
      assert all[block] == all[block..][0] && all[block + 1..] == all[block..][1..];
      var accepted := SendBlock(data, block, server, e);
      if !accepted {
        return false, block + 1;
      }
      block := block + 1;
      pos := pos + bytes;
    }
    assert file[..|file|] == file;
    return true, block;
  }

  lemma NothingStored(text: bool)
    ensures Stored(text, "") == ""
  {
  }

  lemma NextBlock(file: string, pos: nat, bytes: nat)
    requires pos + bytes <= |file|
    requires bytes == if |file| - pos < FILE_BLOCK_SIZE then |file| - pos else FILE_BLOCK_SIZE
    ensures file[..pos] + file[pos..pos + bytes] == file[..pos + bytes]
    ensures Blocks(file[pos..]) != [] && Blocks(file[pos..])[0] == file[pos..pos + bytes]
    ensures bytes == FILE_BLOCK_SIZE ==> Blocks(file[pos..])[1..] == Blocks(file[pos + bytes..])
    ensures bytes < FILE_BLOCK_SIZE ==> |Blocks(file[pos..])| == 1
  {
    assert file[pos..][..bytes] == file[pos..pos + bytes];
    assert file[pos..][bytes..] == file[pos + bytes..];
  }

  /** The server's file is the client's file exactly when nothing in it is translated. */
  lemma UploadedAsIsExactlyWhen(file: string, text: bool)
    ensures Stored(text, Concat(Blocks(file))) == file <==> !text || LF !in file
  {
    BlocksRebuildTheFile(file);
    StoredAsIsExactlyWhen(text, file);
  }

  /** An upload and then the first call of another, from a server just made: if the upload ends well, that call closes a
      file that is closed already. */
  method UploadAgain(text: bool, file: string, e: Env, os: TempFile) returns (ok: bool, server: Server)
    ensures ok == Succeeds(e, true, false, Some(file))
    ensures fresh(server) && (ok ==> server.undefined)
  {
    server := new Server(text);
    var calls, path;
    ok, calls := LoadFile(true, false, Some(file), server, e);
    path := server.SendInit(os);
  }
}
