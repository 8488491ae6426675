/** The message composer of the chat page (src/components/MessageInput.tsx):
    the text being typed, the typing flag and the `startTyping`/`stopTyping`
    calls it makes, and the list of selected attachments with their size caps.
    The component's state hooks are the fields of `Composer`. Its calls of the
    `onSendMessage` prop and of `startTyping`/`stopTyping` are logged in the
    order they are made. The last two come from `useSocket()`, whose context
    does not provide them, so each such call is a call of `undefined`. */
module MessageInput {
  import opened Base
  import opened Attachments

  /** A browser `File` as far as the component looks at it. */
  datatype File = File(name: string, mimetype: string, size: nat)

  /** `FileWithPreview`: the file, its preview URL, and whether a preview is
      still being produced. */
  datatype Selected = Selected(file: File, previewUrl: Option<string>, isConverting: bool)

  /** One call of `onSendMessage(content, type?, files?)`; None is an argument left out. */
  datatype Outgoing = Outgoing(content: string, kind: Option<string>, files: Option<seq<File>>)

  datatype TypingCall = StartTyping(roomId: string) | StopTyping(roomId: string)

  /** How the preview of one file settled: the URL it produced (None for a
      file that is neither HEIC nor an image), or a conversion failure. */
  datatype Preview = Ready(url: Option<string>) | Failed

  const MaxFileSize: nat := 20 * 1024 * 1024
  const MaxTotalSize: nat := 50 * 1024 * 1024

  // ---------------------------------------------------------------------------
  // Sizes
  // ---------------------------------------------------------------------------

  function SizeSum(files: seq<File>): nat {
    if files == [] then 0 else files[0].size + SizeSum(files[1..])
  }

  lemma {:induction false} SizeSumAppend(a: seq<File>, b: seq<File>)
    ensures SizeSum(a + b) == SizeSum(a) + SizeSum(b)
  {
    if a == [] {
      assert a + b == b;
    } else {
      assert (a + b)[0] == a[0] && (a + b)[1..] == a[1..] + b;
      SizeSumAppend(a[1..], b);
    }
  }

  /** `selectedFiles.map(f => f.file)`. */
  function Files(s: seq<Selected>): (fs: seq<File>)
    ensures |fs| == |s| && forall i :: 0 <= i < |s| ==> fs[i] == s[i].file
  {
    seq(|s|, i requires 0 <= i < |s| => s[i].file)
  }

  /** `getTotalSize`: the sizes of the selected files added up. */
  function TotalSize(s: seq<Selected>): nat {
    SizeSum(Files(s))
  }

  lemma TotalSizeAppend(a: seq<Selected>, b: seq<Selected>)
    ensures TotalSize(a + b) == TotalSize(a) + TotalSize(b)
  {
    assert Files(a + b) == Files(a) + Files(b);
    SizeSumAppend(Files(a), Files(b));
  }

  // ---------------------------------------------------------------------------
  // Which files count as images
  // ---------------------------------------------------------------------------

  /** `name.split('.').pop()`: what follows the last '.', or the whole name. */
  function LastDotSegment(name: string): (ext: string)
    ensures |ext| <= |name| && ext == name[|name| - |ext|..]
    ensures forall i :: 0 <= i < |ext| ==> ext[i] != '.'
    ensures |ext| < |name| ==> name[|name| - |ext| - 1] == '.'
  {
    var d := LastIndexOf(name, '.');
    var ext := name[d + 1..];
    LastDotAfter(name, d);
    ext
  }

  lemma LastDotAfter(name: string, d: int)
    requires d == LastIndexOf(name, '.')
    ensures -1 <= d < |name|
    ensures forall i :: d < i < |name| ==> name[i] != '.'
    ensures d >= 0 ==> name[d] == '.'
  {
    if name != [] && name[|name| - 1] != '.' {
      LastDotAfter(name[..|name| - 1], d);
    }
  }

  /** The HEIC test applied when a file is selected: its lower-cased last
      dot-segment is `heic` or `heif`. */
  predicate IsHeicName(name: string) {
    var ext := LastDotSegment(ToLower(name));
    ext == "heic" || ext == "heif"
  }

  /** Whether a newly selected file waits for a preview (`isConverting`). */
  predicate NeedsPreview(f: File) {
    StartsWith(f.mimetype, "image/") || IsHeicName(f.name)
  }

  /** The image test applied on submit: an `image/` type, or a name matching
      `/\.(heic|heif)$/` once lower-cased. */
  predicate IsImageForSubmit(f: File) {
    StartsWith(f.mimetype, "image/") || HasHeicSuffix(f.name)
  }

  /** `files.some(...)` on submit. */
  predicate HasImage(files: seq<File>) {
    exists i :: 0 <= i < |files| && IsImageForSubmit(files[i])
  }

  /** Every file the submit test calls an image was also flagged for a
      preview when it was selected. */
  lemma SubmitImageNeedsPreview(f: File)
    ensures IsImageForSubmit(f) ==> NeedsPreview(f)
  {
    if HasHeicSuffix(f.name) && !StartsWith(f.mimetype, "image/") {
      var l := ToLower(f.name);
      var n := |l|;
      assert l[n - 5..] == ToLower(f.name[n - 5..]);
      var ext := LastDotSegment(l);
      assert l[n - 5] == '.';
      assert |ext| == 4;
      assert ext == l[n - 4..] == l[n - 5..][1..];
    }
  }

  /** The converse fails: a file called just "heic" is flagged for a preview
      but not sent as an image. */
  lemma BareHeicNameDiffers()
    ensures IsHeicName("heic") && !HasHeicSuffix("heic")
  {
    assert ToLower("heic") == "heic";
    assert LastIndexOf("heic", '.') == -1 by {
      LastIndexOfIs("heic", '.', -1);
    }
  }

  // ---------------------------------------------------------------------------
  // Selecting files (src/components/MessageInput.tsx:142-181)
  // ---------------------------------------------------------------------------

  /** The files of `files` a selection accepts when `total` bytes are already
      selected: a file over 20 MB is skipped, and the first file that takes
      the running total over 50 MB ends the selection, itself excluded. */
  function Accepted(total: nat, files: seq<File>): (r: seq<File>)
    decreases |files|
  {
    if files == [] then []
    else if files[0].size > MaxFileSize then Accepted(total, files[1..])
    else if total + files[0].size > MaxTotalSize then []
    else
      [files[0]] + Accepted(total + files[0].size, files[1..])
  }

  /** Whatever a selection accepts is at most 20 MB a file and, added to what
      was already selected, at most 50 MB. */
  lemma {:induction false} AcceptedWithinCaps(total: nat, files: seq<File>)
    decreases |files|
    ensures var r := Accepted(total, files);
      && |r| <= |files|
      && (forall i :: 0 <= i < |r| ==> r[i].size <= MaxFileSize)
      && (r != [] ==> total + SizeSum(r) <= MaxTotalSize)
  {
    if files == [] {
    } else if files[0].size > MaxFileSize {
      AcceptedWithinCaps(total, files[1..]);
    } else if total + files[0].size <= MaxTotalSize {
      var rest := Accepted(total + files[0].size, files[1..]);
      AcceptedWithinCaps(total + files[0].size, files[1..]);
      SizeSumCons(files[0], rest);
    }
  }

  /** The files of `files` at most 20 MB, in order. */
  function SmallFiles(files: seq<File>): seq<File> {
    if files == [] then []
    else if files[0].size > MaxFileSize then SmallFiles(files[1..])
    else [files[0]] + SmallFiles(files[1..])
  }

  /** Selection stops at index `k`: it keeps the small files before `k`, and
      when `k` is inside the input, the file there is small and would take
      the total over 50 MB. */
  ghost predicate CutAt(total: nat, files: seq<File>, k: int) {
    && 0 <= k <= |files|
    && Accepted(total, files) == SmallFiles(files[..k])
    && (k < |files| ==> files[k].size <= MaxFileSize && total + SizeSum(SmallFiles(files[..k])) + files[k].size > MaxTotalSize)
  }

  /** A selection keeps the small files of some prefix of the input, in
      input order, and stops only at a file that breaks the 50 MB cap. */
  lemma {:induction false} AcceptedIsSmallPrefix(total: nat, files: seq<File>)
    decreases |files|
    ensures exists k :: CutAt(total, files, k)
  {
    if files == [] || (files[0].size <= MaxFileSize && total + files[0].size > MaxTotalSize) {
      assert files[..0] == [];
      assert CutAt(total, files, 0);
    } else {
      var f, tail := files[0], files[1..];
      var t := if f.size > MaxFileSize then total else total + f.size;
      AcceptedIsSmallPrefix(t, tail);
      var k :| CutAt(t, tail, k);
      SmallFilesCons(files, k);
      SizeSumCons(f, SmallFiles(tail[..k]));
      assert k < |tail| ==> files[k + 1] == tail[k];
      assert CutAt(total, files, k + 1);
    }
  }

  lemma SmallFilesCons(files: seq<File>, k: nat)
    requires k < |files|
    ensures SmallFiles(files[..k + 1]) == (if files[0].size > MaxFileSize then [] else [files[0]]) + SmallFiles(files[1..][..k])
  {
    assert files[..k + 1][1..] == files[1..][..k];
    assert files[..k + 1][0] == files[0];
  }

  lemma SizeSumCons(f: File, s: seq<File>)
    ensures SizeSum([f] + s) == f.size + SizeSum(s)
  {
    assert ([f] + s)[1..] == s;
  }

  /** The entries a selection appends: no preview yet, and `isConverting`
      set for the files that will get one. */
  function Marked(files: seq<File>): (s: seq<Selected>)
    ensures |s| == |files|
    ensures forall i :: 0 <= i < |files| ==> s[i] == Selected(files[i], None, NeedsPreview(files[i]))
  {
    seq(|files|, i requires 0 <= i < |files| => Selected(files[i], None, NeedsPreview(files[i])))
  }

  lemma MarkedFiles(files: seq<File>)
    ensures Files(Marked(files)) == files
  {
  }

  // ---------------------------------------------------------------------------
  // List updates
  // ---------------------------------------------------------------------------

  /** `prev.map(...)` once the preview of `f` settles: the entries with the
      same name and size stop converting and, on success, take the URL;
      every other entry is left as it is. */
  function Settle(s: seq<Selected>, f: File, p: Preview): (r: seq<Selected>)
    ensures |r| == |s| && Files(r) == Files(s)
    ensures forall i :: 0 <= i < |s| && (s[i].file.name != f.name || s[i].file.size != f.size) ==> r[i] == s[i]
    ensures forall i :: 0 <= i < |s| && s[i].file.name == f.name && s[i].file.size == f.size ==>
      !r[i].isConverting && r[i].previewUrl == (if p.Ready? then p.url else s[i].previewUrl)
  {
    seq(|s|, i requires 0 <= i < |s| =>
      if s[i].file.name == f.name && s[i].file.size == f.size then
        (if p.Ready? then s[i].(previewUrl := p.url, isConverting := false) else s[i].(isConverting := false))
      else s[i])
  }

  /** Settling the same outcome twice is settling it once. */
  lemma SettleIdempotent(s: seq<Selected>, f: File, p: Preview)
    ensures Settle(Settle(s, f, p), f, p) == Settle(s, f, p)
  {
  }

  /** `prev.filter((_, i) => i !== index)`. */
  function RemoveAt(s: seq<Selected>, index: nat): (r: seq<Selected>)
    requires index < |s|
    ensures |r| == |s| - 1
    ensures forall j :: 0 <= j < index ==> r[j] == s[j]
    ensures forall j :: index <= j < |r| ==> r[j] == s[j + 1]
  {
    s[..index] + s[index + 1..]
  }

  /** Removing an entry takes exactly its size off the total. */
  lemma RemoveAtTotal(s: seq<Selected>, index: nat)
    requires index < |s|
    ensures TotalSize(RemoveAt(s, index)) + s[index].file.size == TotalSize(s)
  {
    var x, before, after := s[index], s[..index], s[index + 1..];
    assert s == before + ([x] + after);
    TotalSizeAppend(before, [x] + after);
    TotalSizeAppend([x], after);
    TotalSizeAppend(before, after);
    assert Files([x]) == [x.file];
    SizeSumCons(x.file, []);
    assert [x.file] + [] == [x.file];
  }

  // ---------------------------------------------------------------------------
  // The component
  // ---------------------------------------------------------------------------

  class Composer {
    const roomId: string
    var message: string
    var isTyping: bool
    var showAttachMenu: bool
    var selected: seq<Selected>
    /** The calls of `startTyping`/`stopTyping`, oldest first. */
    var typingCalls: seq<TypingCall>
    /** The calls of `onSendMessage`, oldest first. */
    var sent: seq<Outgoing>

    /** The typing calls alternate, starting with `startTyping`, and the flag
        is set exactly when the last one was a start; the selection stays
        within the caps a selection enforces. */
    ghost predicate Valid()
      reads this
    {
      && (forall i :: 0 <= i < |typingCalls| ==>
            typingCalls[i] == if i % 2 == 0 then StartTyping(roomId) else StopTyping(roomId))
      && (isTyping <==> |typingCalls| % 2 == 1)
      && TotalSize(selected) <= MaxTotalSize
      && (forall i :: 0 <= i < |selected| ==> selected[i].file.size <= MaxFileSize)
    }

    constructor (roomId: string)
      ensures Valid() && this.roomId == roomId
      ensures message == "" && !isTyping && !showAttachMenu && selected == [] && typingCalls == [] && sent == []
    {
      this.roomId := roomId;
      message, isTyping, showAttachMenu := "", false, false;
      selected, typingCalls, sent := [], [], [];
    }

    /** The send button's `disabled`. */
    predicate SubmitDisabled()
      reads this
    {
      Trim(message) == [] && selected == []
    }

    /** `handleTyping`: `startTyping` only on the switch from not typing. */
    method HandleTyping()
      requires Valid()
      modifies this
      ensures Valid() && isTyping
      ensures typingCalls == old(typingCalls) + (if old(isTyping) then [] else [StartTyping(roomId)])
      ensures message == old(message) && selected == old(selected) && sent == old(sent)
      ensures showAttachMenu == old(showAttachMenu)
    {
      if !isTyping {
        isTyping := true;
        typingCalls := typingCalls + [StartTyping(roomId)];
      }
    }

    /** `handleStopTyping`: `stopTyping` only while typing. */
    method HandleStopTyping()
      requires Valid()
      modifies this
      ensures Valid() && !isTyping
      ensures typingCalls == old(typingCalls) + (if old(isTyping) then [StopTyping(roomId)] else [])
      ensures message == old(message) && selected == old(selected) && sent == old(sent)
      ensures showAttachMenu == old(showAttachMenu)
    {
      if isTyping {
        isTyping := false;
        typingCalls := typingCalls + [StopTyping(roomId)];
      }
    }

    /** `handleChange`: the new text, then `handleTyping`. */
    method HandleChange(text: string)
      requires Valid()
      modifies this
      ensures Valid() && isTyping && message == text
      ensures typingCalls == old(typingCalls) + (if old(isTyping) then [] else [StartTyping(roomId)])
      ensures selected == old(selected) && sent == old(sent) && showAttachMenu == old(showAttachMenu)
    {
      message := text;
      HandleTyping();
    }

    /** `handleSubmit`: with files, the trimmed text goes out with them as
        `image` or `file` and the files and text are cleared; without, only
        text that is not blank goes out. Either way typing stops. */
    method HandleSubmit()
      requires Valid()
      modifies this
      ensures Valid() && !isTyping
      ensures |sent| == |old(sent)| + (if old(SubmitDisabled()) then 0 else 1)
      ensures old(selected) != [] ==>
        && sent == old(sent) + [Outgoing(Trim(old(message)), Some(if HasImage(Files(old(selected))) then "image" else "file"),
                                         Some(Files(old(selected))))]
        && selected == [] && message == ""
      ensures old(selected) == [] && Trim(old(message)) != [] ==>
        sent == old(sent) + [Outgoing(Trim(old(message)), None, None)] && selected == [] && message == ""
      ensures old(SubmitDisabled()) ==> sent == old(sent) && selected == old(selected) && message == old(message)
      ensures typingCalls == old(typingCalls) + (if old(isTyping) then [StopTyping(roomId)] else [])
      ensures showAttachMenu == old(showAttachMenu)
    {
      if |selected| > 0 {
        var files := Files(selected);
        var kind := if HasImage(files) then "image" else "file";
        sent := sent + [Outgoing(Trim(message), Some(kind), Some(files))];
        HandleClearFiles();
        message := "";
      } else if Trim(message) != [] {
        sent := sent + [Outgoing(Trim(message), None, None)];
        message := "";
      }
      HandleStopTyping();
    }

    /** `handleFileSelect` up to the previews: the accepted files are
        appended, each flagged `isConverting` when it will get a preview. */
    method HandleFileSelect(files: seq<File>)
      requires Valid()
      modifies this
      ensures Valid()
      ensures selected == old(selected) + Marked(Accepted(TotalSize(old(selected)), files))
      ensures showAttachMenu == (if files == [] then old(showAttachMenu) else false)
      ensures message == old(message) && isTyping == old(isTyping)
      ensures typingCalls == old(typingCalls) && sent == old(sent)
    {
      if files == [] {
        return;
      }
      showAttachMenu := false;
      var newFiles := SelectAccepted(TotalSize(selected), files);
      if newFiles == [] {
        return;
      }
      TotalSizeAppend(selected, newFiles);
      AcceptedWithinCaps(TotalSize(selected), files);
      MarkedFiles(Accepted(TotalSize(selected), files));
      selected := selected + newFiles;
    }

    /** The preview of `f` settled with outcome `p`. */
    method PreviewSettled(f: File, p: Preview)
      requires Valid()
      modifies this
      ensures Valid()
      ensures selected == Settle(old(selected), f, p)
      ensures message == old(message) && isTyping == old(isTyping) && showAttachMenu == old(showAttachMenu)
      ensures typingCalls == old(typingCalls) && sent == old(sent)
    {
      selected := Settle(selected, f, p);
    }

    /** `handleRemoveFile(index)`; `prev[index].previewUrl` fails for an
        index outside the list. */
    method HandleRemoveFile(index: nat)
      requires Valid() && index < |selected|
      modifies this
      ensures Valid()
      ensures selected == RemoveAt(old(selected), index)
      ensures TotalSize(selected) == TotalSize(old(selected)) - old(selected)[index].file.size
      ensures message == old(message) && isTyping == old(isTyping) && showAttachMenu == old(showAttachMenu)
      ensures typingCalls == old(typingCalls) && sent == old(sent)
    {
      RemoveAtTotal(selected, index);
      selected := RemoveAt(selected, index);
    }

    /** `handleClearFiles`. */
    method HandleClearFiles()
      requires Valid()
      modifies this
      ensures Valid() && selected == []
      ensures message == old(message) && isTyping == old(isTyping) && showAttachMenu == old(showAttachMenu)
      ensures typingCalls == old(typingCalls) && sent == old(sent)
    {
      selected := [];
    }
  }

  /** The loop of `handleFileSelect` with its running total and `newFiles`. */
  method SelectAccepted(total: nat, files: seq<File>) returns (newFiles: seq<Selected>)
    ensures newFiles == Marked(Accepted(total, files))
  {
    var totalSize: nat := total;
    newFiles := [];
    ghost var taken: seq<File> := [];
    var i := 0;
    while i < |files|
      invariant 0 <= i <= |files|
      invariant newFiles == Marked(taken)
      invariant Accepted(total, files) == taken + Accepted(totalSize, files[i..])
    {
      var file := files[i];
      ghost var here := Accepted(totalSize, files[i..]);
      if file.size > MaxFileSize {
        AcceptedSkip(totalSize, files, i);
        i := i + 1;
        continue;
      }
      ghost var before := totalSize;
      totalSize := totalSize + file.size;
      if totalSize > MaxTotalSize {
        AcceptedStop(before, files, i);
        break;
      }
      ghost var rest := Accepted(totalSize, files[i + 1..]);
      AcceptedTake(before, files, i);
      AppendOne(taken, file, rest);
      MarkedSnoc(taken, file);
      newFiles := newFiles + [Selected(file, None, NeedsPreview(file))];
      taken := taken + [file];
      i := i + 1;
    }
    if i == |files| {
      assert files[i..] == [];
    }
    assert taken + [] == taken;
  }

  /** The three steps of the selection loop at index `i`. */
  lemma AcceptedSkip(t: nat, files: seq<File>, i: nat)
    requires i < |files| && files[i].size > MaxFileSize
    ensures Accepted(t, files[i..]) == Accepted(t, files[i + 1..])
  {
    assert files[i..][0] == files[i] && files[i..][1..] == files[i + 1..];
  }

  lemma AcceptedStop(t: nat, files: seq<File>, i: nat)
    requires i < |files| && files[i].size <= MaxFileSize && t + files[i].size > MaxTotalSize
    ensures Accepted(t, files[i..]) == []
  {
    assert files[i..][0] == files[i];
  }

  lemma AcceptedTake(t: nat, files: seq<File>, i: nat)
    requires i < |files| && files[i].size <= MaxFileSize && t + files[i].size <= MaxTotalSize
    ensures Accepted(t, files[i..]) == [files[i]] + Accepted(t + files[i].size, files[i + 1..])
  {
    assert files[i..][0] == files[i] && files[i..][1..] == files[i + 1..];
  }

  lemma AppendOne<T>(a: seq<T>, x: T, b: seq<T>)
    ensures a + ([x] + b) == (a + [x]) + b
  {
  }

  lemma MarkedSnoc(taken: seq<File>, f: File)
    ensures Marked(taken + [f]) == Marked(taken) + [Selected(f, None, NeedsPreview(f))]
  {
  }
}
