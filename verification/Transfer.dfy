/**
 One file of a WebDAV download: resuming a `.webdav.part` file with HTTP Range, and promoting it when it is complete.
 Range requests, 206 and 416 answers are those of RFC 9110, sections 14.2, 15.3.7 and 15.5.17.
 */
module Transfer {
  import opened Text

  newtype byte = x: int | 0 <= x < 256
  type Bytes = seq<byte>

  /** What the disk holds for one remote file: the local file and its partial download. */
  datatype Disk = Disk(local: Option<Bytes>, part: Option<Bytes>)

  datatype Outcome = Downloaded | Skipped | Failed(error: string)

  /** What the server sends back first. */
  datatype Head = NoResponse(error: string) | Status(code: int)

  /** A whole answer: the status, the chunks that arrive, and the exception that cuts them short, if any. */
  datatype Answer = Answer(head: Head, chunks: seq<Bytes>, broken: Option<string>)

  /** A transfer once the server has answered: decided at once, or receiving a body into the part file. */
  datatype Opened = Decided(disk: Disk, outcome: Outcome) | Receiving(disk: Disk, resumedFrom: nat)

  const NO_PART := "No such file or directory"
  const HTTP_ERROR := "HTTP error"
  const INCOMPLETE := "Incomplete WebDAV response"

  function Length(b: Option<Bytes>): nat {
    if b.Some? then |b.value| else 0
  }

  /** The part file after an oversized one has been discarded. */
  function UsablePart(size: nat, disk: Disk): Disk {
    if size > 0 && Length(disk.part) > size then disk.(part := None) else disk
  }

  predicate Complete(size: nat, disk: Disk) {
    disk.local.Some? && size > 0 && |disk.local.value| == size
  }

  /** The offset that the Range header asks for; 0 means no Range header. */
  function ResumeOffset(size: nat, disk: Disk): nat {
    Length(UsablePart(size, disk).part)
  }

  function Promote(disk: Disk): Opened {
    if disk.part.Some? then Decided(Disk(disk.part, None), Downloaded)
    else Decided(disk, Failed(NO_PART))
  }

  /** From the check of the local file to the opening of the part file. */
  function Open(size: nat, head: Head, disk: Disk): Opened {
    if Complete(size, disk) then Decided(disk, Skipped)
    else
      var usable := UsablePart(size, disk);
      var resume := Length(usable.part);
      match head
      case NoResponse(e) => Decided(usable, Failed(e))
      case Status(code) =>
        if code == 416 && size == resume then Promote(usable)
        else if 400 <= code < 600 then Decided(usable, Failed(HTTP_ERROR))
        else if resume > 0 && code == 206 then Receiving(usable, resume)
        else Receiving(usable.(part := Some([])), 0)
  }

  function Append(disk: Disk, chunk: Bytes): Disk {
    disk.(part := Some((if disk.part.Some? then disk.part.value else []) + chunk))
  }

  function AppendAll(disk: Disk, chunks: seq<Bytes>): Disk {
    if chunks == [] then disk else Append(AppendAll(disk, chunks[..|chunks| - 1]), chunks[|chunks| - 1])
  }

  /** The end of the body: an exception, a size check, or the promotion. */
  function Close(size: nat, broken: Option<string>, disk: Disk): Opened {
    if broken.Some? then Decided(disk, Failed(broken.value))
    else if size > 0 && Length(disk.part) != size then Decided(disk, Failed(INCOMPLETE))
    else Promote(disk)
  }

  /** A whole attempt. */
  function Attempt(size: nat, answer: Answer, disk: Disk): Opened {
    var started := Open(size, answer.head, disk);
    if started.Decided? then started
    else Close(size, answer.broken, AppendAll(started.disk, answer.chunks))
  }

  function Flatten(chunks: seq<Bytes>): Bytes {
    if chunks == [] then [] else Flatten(chunks[..|chunks| - 1]) + chunks[|chunks| - 1]
  }

  /** The files of one download on disk, and the progress its job record shows. */
  class LocalFile {
    var local: Option<Bytes>
    var part: Option<Bytes>
    var transferred: nat
    var resumedFrom: nat

    constructor (local: Option<Bytes>, part: Option<Bytes>)
      ensures Files() == Disk(local, part)
    {
      this.local, this.part := local, part;
      transferred, resumedFrom := 0, 0;
    }

    function Files(): Disk
      reads this
    {
      Disk(local, part)
    }

    /** `temporary.replace(local)`, which raises when there is no part file. */
    method Replace() returns (outcome: Outcome)
      modifies this
      ensures Decided(Files(), outcome) == Promote(old(Files()))
      ensures transferred == old(transferred)
    {
      if part.None? {
        return Failed(NO_PART);
      }
      local, part := part, None;
      outcome := Downloaded;
    }

    /** `transfer`, from the check of the local file to the promotion. */
    method Transfer(size: nat, answer: Answer) returns (outcome: Outcome)
      modifies this
      ensures Decided(Files(), outcome) == Attempt(size, answer, old(Files()))
      ensures outcome.Downloaded? ==> local.Some? && transferred == |local.value|
    {
      if local.Some? && size > 0 && |local.value| == size {
        return Skipped;
      }
      var resume := Length(part);
      if size > 0 && resume > size {
        part := None;
        resume := 0;
      }
      transferred, resumedFrom := resume, resume;
      if answer.head.NoResponse? {
        return Failed(answer.head.error);
      }
      var code := answer.head.code;
      if code == 416 && size == resume {
        outcome := Replace();
        return;
      }
      if 400 <= code < 600 {
        return Failed(HTTP_ERROR);
      }
      var append := resume > 0 && code == 206;
      if !append {
        part := Some([]);
        if resume > 0 {
          transferred, resumedFrom := 0, 0;
        }
      }
      ghost var started := Files();
      for k := 0 to |answer.chunks|
        invariant part.Some? && transferred == |part.value|
        invariant Files() == AppendAll(started, answer.chunks[..k])
        modifies this
      {
        var chunk := answer.chunks[k];
        assert answer.chunks[..k + 1][..k] == answer.chunks[..k];
        if chunk != [] {
          part := Some(part.value + chunk);
          transferred := transferred + |chunk|;
        } else {
          assert part.value + chunk == part.value;
        }
      }
      assert answer.chunks[..|answer.chunks|] == answer.chunks;
      if answer.broken.Some? {
        return Failed(answer.broken.value);
      }
      if size > 0 && |part.value| != size {
        return Failed(INCOMPLETE);
      }
      outcome := Replace();
    }
  }

  // ---- What each answer leads to ----

  lemma {:induction false} AppendAllAppends(disk: Disk, chunks: seq<Bytes>)
    requires disk.part.Some?
    ensures AppendAll(disk, chunks) == disk.(part := Some(disk.part.value + Flatten(chunks)))
  {
    if chunks == [] {
      assert disk.part.value + [] == disk.part.value;
    } else {
      var init, last := chunks[..|chunks| - 1], chunks[|chunks| - 1];
      AppendAllAppends(disk, init);
      assert disk.part.value + Flatten(init) + last == disk.part.value + (Flatten(init) + last);
    }
  }

  /** A file of the listed size is in its place; a listed size of 0 says nothing about the file. */
  predicate HasListedSize(size: nat, local: Option<Bytes>) {
    local.Some? && size > 0 && |local.value| == size
  }

  /** Such a file is left alone, whatever else lies on the disk and whatever the server would say. */
  lemma PresentFileIsSkipped(size: nat, answer: Answer, disk: Disk)
    ensures Attempt(size, answer, disk) == Decided(disk, Skipped) <==> HasListedSize(size, disk.local)
  {
  }

  /** An answer that brings a whole file: no error, and not the rest of a part. */
  predicate BringsWhole(size: nat, code: int, disk: Disk) {
    && !HasListedSize(size, disk.local) && !(400 <= code < 600)
    && (code == 206 ==> disk.part.None? || disk.part.value == [] || (size > 0 && |disk.part.value| > size))
  }

  /** An unbroken body of a full answer is promoted if and only if the size is unlisted, that is 0, or the body has it. */
  lemma FullBodyIsPromotedIff(size: nat, code: int, chunks: seq<Bytes>, disk: Disk)
    requires BringsWhole(size, code, disk)
    ensures var body := Flatten(chunks);
            Attempt(size, Answer(Status(code), chunks, None), disk) ==
            if size == 0 || |body| == size then Decided(Disk(Some(body), None), Downloaded)
            else Decided(Disk(disk.local, Some(body)), Failed(INCOMPLETE))
  {
    AppendAllAppends(Disk(disk.local, Some([])), chunks);
    assert [] + Flatten(chunks) == Flatten(chunks);
  }

  /** The same for the rest of a file, which goes behind the part. */
  lemma RestIsPromotedIff(size: nat, chunks: seq<Bytes>, local: Option<Bytes>, part: Bytes)
    requires !HasListedSize(size, local) && part != [] && (size == 0 || |part| <= size)
    ensures var whole := part + Flatten(chunks);
            Attempt(size, Answer(Status(206), chunks, None), Disk(local, Some(part))) ==
            if size == 0 || |whole| == size then Decided(Disk(Some(whole), None), Downloaded)
            else Decided(Disk(local, Some(whole)), Failed(INCOMPLETE))
  {
    AppendAllAppends(Disk(local, Some(part)), chunks);
  }

  /** A body that breaks off is kept for the next attempt. */
  lemma BrokenBodyIsKept(size: nat, code: int, chunks: seq<Bytes>, e: string, disk: Disk)
    requires BringsWhole(size, code, disk)
    ensures Attempt(size, Answer(Status(code), chunks, Some(e)), disk) == Decided(Disk(disk.local, Some(Flatten(chunks))), Failed(e))
  {
    AppendAllAppends(Disk(disk.local, Some([])), chunks);
    assert [] + Flatten(chunks) == Flatten(chunks);
  }

  lemma BrokenRestIsKept(size: nat, chunks: seq<Bytes>, e: string, local: Option<Bytes>, part: Bytes)
    requires !HasListedSize(size, local) && part != [] && (size == 0 || |part| <= size)
    ensures Attempt(size, Answer(Status(206), chunks, Some(e)), Disk(local, Some(part))) ==
            Decided(Disk(local, Some(part + Flatten(chunks))), Failed(e))
  {
    AppendAllAppends(Disk(local, Some(part)), chunks);
  }

  /** Status 416 promotes a part of exactly the listed size; it is an error for every other part. */
  lemma NothingLeftPromotesIff(size: nat, chunks: seq<Bytes>, broken: Option<string>, local: Option<Bytes>, part: Bytes)
    requires !HasListedSize(size, local) && part != [] && (size == 0 || |part| <= size)
    ensures Attempt(size, Answer(Status(416), chunks, broken), Disk(local, Some(part))) ==
            if |part| == size then Decided(Disk(Some(part), None), Downloaded)
            else Decided(Disk(local, Some(part)), Failed(HTTP_ERROR))
  {
  }

  /** Without a part it is an error too, also for a file of unlisted size, whose empty part would have the size 0. */
  lemma NothingToPromote(size: nat, chunks: seq<Bytes>, broken: Option<string>, local: Option<Bytes>)
    requires !HasListedSize(size, local)
    ensures Attempt(size, Answer(Status(416), chunks, broken), Disk(local, None)) ==
            Decided(Disk(local, None), Failed(if size == 0 then NO_PART else HTTP_ERROR))
  {
  }

  /** Other client and server errors, and no answer at all, leave the files as they are. */
  lemma ErrorsChangeNothing(size: nat, code: int, e: string, chunks: seq<Bytes>, broken: Option<string>, disk: Disk)
    requires !HasListedSize(size, disk.local) && (disk.part.Some? && size > 0 ==> |disk.part.value| <= size)
    requires 400 <= code < 600 && code != 416
    ensures Attempt(size, Answer(Status(code), chunks, broken), disk) == Decided(disk, Failed(HTTP_ERROR))
    ensures Attempt(size, Answer(NoResponse(e), chunks, broken), disk) == Decided(disk, Failed(e))
  {
  }

  /** A part longer than the listed size is discarded first: the attempt asks from offset 0 and goes on as without it. */
  lemma OversizedPartIsDiscarded(size: nat, answer: Answer, local: Option<Bytes>, part: Bytes)
    requires !HasListedSize(size, local) && size > 0 && |part| > size
    ensures ResumeOffset(size, Disk(local, Some(part))) == 0
    ensures Attempt(size, answer, Disk(local, Some(part))) == Attempt(size, answer, Disk(local, None))
  {
  }

  /** Otherwise it asks for what is behind the part. */
  lemma ResumesBehindThePart(size: nat, local: Option<Bytes>, part: Bytes)
    requires size == 0 || |part| <= size
    ensures ResumeOffset(size, Disk(local, Some(part))) == |part| && ResumeOffset(size, Disk(local, None)) == 0
  {
  }

  // ---- Honest servers ----

  predicate IsPrefix(part: Option<Bytes>, content: Bytes) {
    part.Some? ==> part.value <= content
  }

  /**
   What a server that holds `content` may answer to a request that resumes at `offset`: any error, no answer at all,
   416 when there is nothing left, the requested rest, or the whole content; every body may be cut short.
   */
  predicate Honest(content: Bytes, offset: nat, head: Head) {
    match head
    case NoResponse(_) => true
    case Status(code) =>
      || code == 200
      || (code == 206 && 0 < offset < |content|)
      || (code == 416 && offset > 0 && offset >= |content|)
      || (400 <= code < 600 && code != 416)
  }

  /** The body that belongs to an honest answer. */
  predicate HonestBody(content: Bytes, offset: nat, head: Head, body: Bytes) {
    head.Status? ==>
      && (head.code == 200 ==> body <= content)
      && (head.code == 206 ==> offset <= |content| && body <= content[offset..])
  }

  predicate HonestAnswer(content: Bytes, size: nat, disk: Disk, answer: Answer) {
    var offset := ResumeOffset(size, disk);
    Honest(content, offset, answer.head) && HonestBody(content, offset, answer.head, Flatten(answer.chunks))
  }

  lemma PrefixExtends(part: Bytes, body: Bytes, content: Bytes)
    requires part <= content && body <= content[|part|..]
    ensures part + body <= content
  {
    assert content == part + content[|part|..];
  }

  /**
   With an honest server, and a listed size that is not below the real one: the part file stays a prefix of the
   content, what is promoted is the content, and only a full restart (a 200 answer) may shorten the part file.
   */
  lemma AttemptIsExact(content: Bytes, size: nat, answer: Answer, disk: Disk)
    requires size >= |content| && IsPrefix(disk.part, content) && HonestAnswer(content, size, disk, answer)
    ensures var result := Attempt(size, answer, disk);
            && result.Decided?
            && IsPrefix(result.disk.part, content)
            && (result.outcome.Downloaded? ==> result.disk == Disk(Some(content), None))
            && (!result.outcome.Downloaded? ==> result.disk.local == disk.local)
            && (result.outcome.Skipped? ==> result.disk == disk && Complete(size, disk))
            && (result.outcome.Failed? && answer.head != Status(200) ==> Length(result.disk.part) >= Length(disk.part))
  {
    var started := Open(size, answer.head, disk);
    if started.Receiving? {
      AppendAllAppends(started.disk, answer.chunks);
      PrefixExtends(started.disk.part.value, Flatten(answer.chunks), content);
      var part := started.disk.part.value + Flatten(answer.chunks);
      assert |part| >= |content| ==> part == content;
    } else if disk.part.Some? {
      assert |disk.part.value| >= |content| ==> disk.part.value == content;
    }
  }

  /** A run of attempts at one file. */
  function Run(size: nat, answers: seq<Answer>, disk: Disk): Disk {
    if answers == [] then disk
    else Attempt(size, answers[|answers| - 1], Run(size, answers[..|answers| - 1], disk)).disk
  }

  predicate HonestRun(content: Bytes, size: nat, answers: seq<Answer>, disk: Disk) {
    answers != [] ==>
      var before := Run(size, answers[..|answers| - 1], disk);
      HonestRun(content, size, answers[..|answers| - 1], disk) && HonestAnswer(content, size, before, answers[|answers| - 1])
  }

  /** Over any number of attempts: the part file is a prefix of the content, and a new local file is the content. */
  lemma {:induction false} RunIsExact(content: Bytes, size: nat, answers: seq<Answer>, disk: Disk)
    requires size >= |content| && IsPrefix(disk.part, content) && HonestRun(content, size, answers, disk)
    ensures IsPrefix(Run(size, answers, disk).part, content)
    ensures Run(size, answers, disk).local == disk.local || Run(size, answers, disk).local == Some(content)
  {
    if answers != [] {
      RunIsExact(content, size, answers[..|answers| - 1], disk);
      AttemptIsExact(content, size, answers[|answers| - 1], Run(size, answers[..|answers| - 1], disk));
    }
  }

  /** Every promotion is exact, whatever an honest server answers. */
  ghost predicate AlwaysExact(content: Bytes, size: nat) {
    forall answer: Answer, disk: Disk ::
      IsPrefix(disk.part, content) && HonestAnswer(content, size, disk, answer)
      && Attempt(size, answer, disk).outcome.Downloaded?
      ==> Attempt(size, answer, disk).disk.local == Some(content)
  }

  /** That is so exactly when the listing does not understate the size; a size of 0 turns the check off. */
  lemma ExactIffSizeNotUnderstated(content: Bytes, size: nat)
    ensures AlwaysExact(content, size) <==> size >= |content|
  {
    if size >= |content| {
      forall answer: Answer, disk: Disk | IsPrefix(disk.part, content) && HonestAnswer(content, size, disk, answer)
        && Attempt(size, answer, disk).outcome.Downloaded?
        ensures Attempt(size, answer, disk).disk.local == Some(content)
      {
        AttemptIsExact(content, size, answer, disk);
      }
    } else {
      var cut := content[..size];
      var answer := Answer(Status(200), [cut], None);
      var disk := Disk(None, None);
      AppendAllAppends(Disk(None, Some([])), [cut]);
      assert Flatten([cut]) == cut by {
        assert [cut][..0] == [];
        assert [] + cut == cut;
      }
      assert HonestAnswer(content, size, disk, answer);
      assert Attempt(size, answer, disk).disk.local == Some(cut);
      assert |cut| != |content|;
    }
  }

  /** So a file of unlisted size arrives when an honest server sends all of it; such a file has no other safeguard. */
  lemma UnlistedSizeArrives(content: Bytes, chunks: seq<Bytes>, disk: Disk)
    requires Flatten(chunks) == content
    ensures Honest(content, ResumeOffset(0, disk), Status(200)) && HonestBody(content, ResumeOffset(0, disk), Status(200), Flatten(chunks))
    ensures Attempt(0, Answer(Status(200), chunks, None), disk) == Decided(Disk(Some(content), None), Downloaded)
  {
    FullBodyIsPromotedIff(0, 200, chunks, disk);
  }

  // ---- Parts of something else ----

  /**
   The Range request names no version of the content, so the part may come from an older one. With a true size, a
   promoted file is the content if and only if the server sent everything or the part was a prefix of the content.
   */
  lemma PromotionIsExactIff(content: Bytes, answer: Answer, disk: Disk)
    requires content != [] && HonestAnswer(content, |content|, disk, answer)
    requires Attempt(|content|, answer, disk).outcome.Downloaded?
    ensures Attempt(|content|, answer, disk).disk.local == Some(content) <==>
            answer.head == Status(200) || IsPrefix(UsablePart(|content|, disk).part, content)
  {
    var usable := UsablePart(|content|, disk);
    var started := Open(|content|, answer.head, disk);
    if started.Receiving? {
      AppendAllAppends(started.disk, answer.chunks);
      var part, body := started.disk.part.value, Flatten(answer.chunks);
      assert Attempt(|content|, answer, disk).disk.local == Some(part + body) && |part + body| == |content|;
      assert (part + body)[..|part|] == part;
      if part <= content {
        PrefixExtends(part, body, content);
        assert part + body == content;
      }
    } else if usable.part.Some? {
      assert usable.part.value <= content && |usable.part.value| == |content| ==> usable.part.value == content;
    }
  }

  /** A part of an older content is completed by the end of the new one, and the result passes the size check. */
  lemma OldPartIsCompleted()
    ensures var content := [2, 2];
            var disk := Disk(None, Some([1]));
            var answer := Answer(Status(206), [[2]], None);
            && HonestAnswer(content, |content|, disk, answer)
            && Attempt(|content|, answer, disk) == Decided(Disk(Some([1, 2]), None), Downloaded)
  {
    var content: Bytes := [2, 2];
    var disk := Disk(None, Some([1]));
    var answer := Answer(Status(206), [[2]], None);
    AppendAllAppends(disk, answer.chunks);
    assert Flatten(answer.chunks) == [2] by {
      assert answer.chunks[..0] == [];
    }
    assert content[1..] == [2];
    assert HonestBody(content, 1, answer.head, Flatten(answer.chunks));
    assert Open(2, answer.head, disk) == Receiving(disk, 1);
    var stale: Bytes := [1];
    assert stale + Flatten(answer.chunks) == [1, 2];
  }

  // ---- Resuming makes progress ----

  /** The server honours Range and the attempt brings at least one new byte, unless none is missing. */
  predicate Progresses(content: Bytes, size: nat, disk: Disk, answer: Answer) {
    && HonestAnswer(content, size, disk, answer)
    && answer.head.Status?
    && (if ResumeOffset(size, disk) == |content| then answer.head.code == 416
        else Flatten(answer.chunks) != [] && answer.head.code == if ResumeOffset(size, disk) > 0 then 206 else 200)
  }

  predicate ProgressingRun(content: Bytes, size: nat, answers: seq<Answer>, disk: Disk) {
    answers != [] ==>
      var before := Run(size, answers[..|answers| - 1], disk);
      && ProgressingRun(content, size, answers[..|answers| - 1], disk)
      && (before.local == None ==> Progresses(content, size, before, answers[|answers| - 1]))
  }

  /** Each such attempt promotes the file or keeps everything received before it and adds to it. */
  lemma {:induction false} ProgressIsKept(content: Bytes, answers: seq<Answer>, disk: Disk)
    requires content != [] && disk.local == None && IsPrefix(disk.part, content)
    requires ProgressingRun(content, |content|, answers, disk)
    ensures var result := Run(|content|, answers, disk);
            || result.local == Some(content)
            || (result.local == None && IsPrefix(result.part, content) && Length(result.part) >= Length(disk.part) + |answers|)
  {
    if answers != [] {
      var init, last := answers[..|answers| - 1], answers[|answers| - 1];
      ProgressIsKept(content, init, disk);
      var before := Run(|content|, init, disk);
      if before.local == None {
        AttemptIsExact(content, |content|, last, before);
        var started := Open(|content|, last.head, before);
        if started.Receiving? {
          AppendAllAppends(started.disk, last.chunks);
        }
      }
    }
  }

  /** So a file is complete after at most one attempt more than bytes are missing, however often the connection breaks. */
  lemma ResumingCompletes(content: Bytes, answers: seq<Answer>, disk: Disk)
    requires content != [] && disk.local == None && IsPrefix(disk.part, content)
    requires |answers| > |content| - Length(disk.part) && ProgressingRun(content, |content|, answers, disk)
    ensures Run(|content|, answers, disk).local == Some(content)
  {
    ProgressIsKept(content, answers, disk);
  }
}
