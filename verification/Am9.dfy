/** The AM9 service as the installer sees it: every call is logged with its outcome,
    and the log is read as the installs it leaves open and the data it was given. */
module Am9 {
  import opened Bytes

  datatype FinishResult = Finished | Outdated | NotFinished

  datatype Call =
    | ImportCertificate(chain: seq<byte>, ok: bool)
    | TicketBegin(ok: bool)
    | TicketWrite(data: seq<byte>, ok: bool)
    | TicketFinish(result: FinishResult)
    | TitleBegin(overwrite: bool, titleId: nat, ok: bool)
    | TmdBegin(ok: bool)
    | TmdWrite(data: seq<byte>, ok: bool)
    | TmdFinish(ok: bool)
    | CreateContexts(indices: seq<nat>, ok: bool)
    | ContentBegin(index: nat, ok: bool)
    | GetContext(index: nat, ok: bool)
    | ContentWrite(data: seq<byte>, ok: bool)
    | ContentFinish(ok: bool)
    | TitleFinish(ok: bool)
    | TitlesCommit(titleId: nat, ok: bool)

  datatype Content = Content(index: nat, data: seq<byte>)

  /** The contents begun between two commits, next to the batch announced for them. */
  datatype CommitRecord = CommitRecord(batch: seq<nat>, begun: seq<nat>)

  /** What a log of calls amounts to. `legal` falls at the first call made out of turn:
      outside its transaction, inside a wrong one, or after a failed call. */
  datatype View = View(
    log: seq<Call>,
    legal: bool,
    failed: bool,
    ticket: bool,
    title: bool,
    tmd: bool,
    content: bool,
    ticketData: seq<byte>,
    tmdData: seq<byte>,
    current: Content,
    blocksOnly: bool,
    installed: seq<Content>,
    everBegun: seq<nat>,
    batch: seq<nat>,
    begun: seq<nat>,
    commits: seq<CommitRecord>)

  const FRESH := View([], true, false, false, false, false, false, [], [], Content(0, []), true, [], [], [], [], [])

  predicate Succeeds(c: Call) {
    match c
    case TicketFinish(r) => r != NotFinished
    case _ => c.ok
  }

  /** The transaction rules: which calls the open installs allow. */
  predicate Allowed(v: View, c: Call) {
    match c
    case ImportCertificate(_, _) => !v.ticket && !v.title
    case TicketBegin(_) => !v.ticket && !v.title
    case TicketWrite(_, _) => v.ticket
    case TicketFinish(_) => v.ticket
    case TitleBegin(_, _, _) => !v.ticket && !v.title
    case TmdBegin(_) => v.title && !v.tmd && !v.content
    case TmdWrite(_, _) => v.tmd
    case TmdFinish(_) => v.tmd
    case CreateContexts(_, _) => v.title && !v.tmd && !v.content && v.begun == []
    case ContentBegin(_, _) => v.title && !v.tmd && !v.content
    case GetContext(i, _) => v.content && i == v.current.index
    case ContentWrite(_, _) => v.content
    case ContentFinish(_) => v.content
    case TitleFinish(_) => v.title && !v.tmd && !v.content
    case TitlesCommit(_, _) => !v.ticket && !v.title
  }

  /** The effect of a call that succeeded. */
  function Effect(v: View, c: Call): (r: View)
    ensures r.legal == v.legal && r.failed == v.failed && r.log == v.log
  {
    match c
    case ImportCertificate(_, _) => v
    case TicketBegin(_) => v.(ticket := true, ticketData := [])
    case TicketWrite(d, _) => v.(ticketData := v.ticketData + d)
    case TicketFinish(_) => v.(ticket := false)
    case TitleBegin(_, _, _) => v.(title := true)
    case TmdBegin(_) => v.(tmd := true, tmdData := [])
    case TmdWrite(d, _) => v.(tmdData := v.tmdData + d)
    case TmdFinish(_) => v.(tmd := false)
    case CreateContexts(indices, _) => v.(batch := indices)
    case ContentBegin(i, _) =>
      v.(content := true, current := Content(i, []), everBegun := v.everBegun + [i], begun := v.begun + [i])
    case GetContext(_, _) => v
    case ContentWrite(d, _) =>
      v.(current := v.current.(data := v.current.data + d), blocksOnly := v.blocksOnly && 0 < |d| && |d| % 16 == 0)
    case ContentFinish(_) => v.(content := false, installed := v.installed + [v.current])
    case TitleFinish(_) => v.(title := false)
    case TitlesCommit(_, _) => v.(commits := v.commits + [CommitRecord(v.batch, v.begun)], batch := [], begun := [])
  }

  function Apply(v: View, c: Call): View {
    var legal := v.legal && !v.failed && Allowed(v, c);
    var w := v.(log := v.log + [c], legal := legal);
    if Succeeds(c) then Effect(w, c) else w.(failed := true)
  }

  function Replay(log: seq<Call>): View {
    if log == [] then FRESH else Apply(Replay(log[..|log| - 1]), log[|log| - 1])
  }

  /** What a log says by name: the calls that name a title and the certificate chains, in order. */
  datatype Names = Names(titles: seq<Call>, chains: seq<seq<byte>>)

  ghost function Noted(n: Names, c: Call): Names {
    match c
    case TitleBegin(_, _, _) => n.(titles := n.titles + [c])
    case TitlesCommit(_, _) => n.(titles := n.titles + [c])
    case ImportCertificate(chain, _) => n.(chains := n.chains + [chain])
    case _ => n
  }

  ghost function NamesIn(log: seq<Call>): Names {
    if log == [] then Names([], []) else Noted(NamesIn(log[..|log| - 1]), log[|log| - 1])
  }

  lemma LogGrown(v: View, c: Call)
    ensures Apply(v, c).log == v.log + [c]
    ensures Replay(v.log + [c]) == Apply(Replay(v.log), c)
    ensures NamesIn(v.log + [c]) == Noted(NamesIn(v.log), c)
  {
    assert (v.log + [c])[..|v.log|] == v.log;
    LogAfter(v, c);
    hide Apply;
  }

  lemma Fails(v: View, c: Call)
    ensures !Succeeds(c) ==> Apply(v, c).failed
  {
    hide Allowed;
  }

  lemma LogAfter(v: View, c: Call)
    ensures Apply(v, c).log == v.log + [c]
  {
    hide Allowed;
  }

  /** The server answers as it likes; only the size of a content is fixed. */
  class Server {
    const sizeOf: nat -> nat
    ghost var view: View
    ghost var names: Names

    ghost predicate Valid()
      reads this
    {
      view == Replay(view.log) && names == NamesIn(view.log)
    }

    constructor (sizeOf: nat -> nat)
      ensures Valid() && view == FRESH && this.sizeOf == sizeOf
    {
      this.sizeOf := sizeOf;
      view, names := FRESH, Names([], []);
    }

    ghost method Record(c: Call)
      requires Valid()
      modifies this
      ensures Valid() && view == Apply(old(view), c)
      ensures names == Noted(old(names), c)
      ensures !Succeeds(c) ==> view.failed
    {
      Fails(view, c);
      hide Apply, Replay, Noted, NamesIn;
      LogGrown(view, c);
      view := Apply(view, c);
      names := Noted(names, c);
    }

    method ImportCertificateChain(chain: seq<byte>) returns (ok: bool)
      requires Valid()
      modifies this
      ensures Valid() && view == Apply(old(view), ImportCertificate(chain, ok))
      ensures !ok ==> view.failed
      ensures names == Noted(old(names), ImportCertificate(chain, ok))
    {
      ok := *;
      Record(ImportCertificate(chain, ok));
    }

    method InstallTicketBegin() returns (ok: bool)
      requires Valid()
      modifies this
      ensures Valid() && view == Apply(old(view), TicketBegin(ok))
      ensures !ok ==> view.failed
      ensures names == old(names)
    {
      ok := *;
      Record(TicketBegin(ok));
    }

    method InstallTicketWrite(data: seq<byte>) returns (ok: bool)
      requires Valid()
      modifies this
      ensures Valid() && view == Apply(old(view), TicketWrite(data, ok))
      ensures !ok ==> view.failed
      ensures names == old(names)
    {
      ok := *;
      Record(TicketWrite(data, ok));
    }

    method InstallTicketFinish() returns (r: FinishResult)
      requires Valid()
      modifies this
      ensures Valid() && view == Apply(old(view), TicketFinish(r))
      ensures r == NotFinished ==> view.failed
      ensures names == old(names)
    {
      r := *;
      Record(TicketFinish(r));
    }

    method InstallTitleBegin(overwrite: bool, titleId: nat) returns (ok: bool)
      requires Valid()
      modifies this
      ensures Valid() && view == Apply(old(view), TitleBegin(overwrite, titleId, ok))
      ensures !ok ==> view.failed
      ensures names == Noted(old(names), TitleBegin(overwrite, titleId, ok))
    {
      ok := *;
      Record(TitleBegin(overwrite, titleId, ok));
    }

    method InstallTmdBegin() returns (ok: bool)
      requires Valid()
      modifies this
      ensures Valid() && view == Apply(old(view), TmdBegin(ok))
      ensures !ok ==> view.failed
      ensures names == old(names)
    {
      ok := *;
      Record(TmdBegin(ok));
    }

    method InstallTmdWrite(data: seq<byte>) returns (ok: bool)
      requires Valid()
      modifies this
      ensures Valid() && view == Apply(old(view), TmdWrite(data, ok))
      ensures !ok ==> view.failed
      ensures names == old(names)
    {
      ok := *;
      Record(TmdWrite(data, ok));
    }

    method InstallTmdFinish() returns (ok: bool)
      requires Valid()
      modifies this
      ensures Valid() && view == Apply(old(view), TmdFinish(ok))
      ensures !ok ==> view.failed
      ensures names == old(names)
    {
      ok := *;
      Record(TmdFinish(ok));
    }

    method CreateImportContentContexts(indices: seq<nat>) returns (ok: bool)
      requires Valid()
      modifies this
      ensures Valid() && view == Apply(old(view), CreateContexts(indices, ok))
      ensures !ok ==> view.failed
      ensures names == old(names)
    {
      ok := *;
      Record(CreateContexts(indices, ok));
    }

    method InstallContentBegin(index: nat) returns (ok: bool)
      requires Valid()
      modifies this
      ensures Valid() && view == Apply(old(view), ContentBegin(index, ok))
      ensures !ok ==> view.failed
      ensures names == old(names)
    {
      ok := *;
      Record(ContentBegin(index, ok));
    }

    /** ctx.size truncated to u32 is the size of the content the caller asked for. */
    method GetCurrentImportContentContext(index: nat) returns (ok: bool, size: nat)
      requires Valid()
      modifies this
      ensures Valid() && view == Apply(old(view), GetContext(index, ok))
      ensures !ok ==> view.failed
      ensures names == old(names)
      ensures size == sizeOf(index) % U32_LIMIT
    {
      ok := *;
      size := sizeOf(index) % U32_LIMIT;
      Record(GetContext(index, ok));
    }

    method InstallContentWrite(data: seq<byte>) returns (ok: bool)
      requires Valid()
      modifies this
      ensures Valid() && view == Apply(old(view), ContentWrite(data, ok))
      ensures !ok ==> view.failed
      ensures names == old(names)
    {
      ok := *;
      Record(ContentWrite(data, ok));
    }

    method InstallContentFinish() returns (ok: bool)
      requires Valid()
      modifies this
      ensures Valid() && view == Apply(old(view), ContentFinish(ok))
      ensures !ok ==> view.failed
      ensures names == old(names)
    {
      ok := *;
      Record(ContentFinish(ok));
    }

    method InstallTitleFinish() returns (ok: bool)
      requires Valid()
      modifies this
      ensures Valid() && view == Apply(old(view), TitleFinish(ok))
      ensures !ok ==> view.failed
      ensures names == old(names)
    {
      ok := *;
      Record(TitleFinish(ok));
    }

    method InstallTitlesCommit(titleId: nat) returns (ok: bool)
      requires Valid()
      modifies this
      ensures Valid() && view == Apply(old(view), TitlesCommit(titleId, ok))
      ensures !ok ==> view.failed
      ensures names == Noted(old(names), TitlesCommit(titleId, ok))
    {
      ok := *;
      Record(TitlesCommit(titleId, ok));
    }
  }
}
