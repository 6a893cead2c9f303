/**
 The sandbox view (`sandbox.js`): the panel override `Connection.main`,
 the file list rebuilt from each `sandbox_list` response, the three
 per-file buttons and what their clicks send, and `put_script`.
 */
module Sandbox {
  import opened Js
  import opened Dom
  import opened Rpc

  const ScriptSuffix: string := ".script"

  /** The test `file.substr(-7) == '.script'`. `substr(-7)` of a shorter
      name is the whole name, which cannot equal the seven-character
      suffix: the test is exactly "ends with `.script`". */
  predicate IsScript(file: string): (b: bool)
    ensures b <==> EndsWith(file, ScriptSuffix)
  {
    SubstrFromEnd(file, 7);
    Substr(file, -7, None) == ScriptSuffix
  }

  /** JavaScript takes `substr(-7)` over code units, not characters. The
      suffix is plain ASCII, so both readings of the test agree on every
      name, emoji included. */
  lemma ScriptTestUtf16(file: string)
    ensures IsScript(file) <==> EndsWith(Utf16(file), Utf16(ScriptSuffix))
  {
    assert forall i :: 0 <= i < |ScriptSuffix| ==> ScriptSuffix[i] as int < 0x1_0000;
    EndsWithUtf16(file, ScriptSuffix);
  }

  // ---------------------------------------------------------------------
  // File list
  // ---------------------------------------------------------------------

  datatype Action = Delete | Load | Play

  /** A button and the file name stored on it when it was created. */
  datatype Button = Button(action: Action, filename: string)

  /** A list item: the delete button, the file name, then (for a script)
      the load and play buttons; `buttons` lists the buttons in that order. */
  datatype FileItem = FileItem(text: string, buttons: seq<Button>)

  /** The item for one file: every file can be deleted, and a file can be
      loaded and played exactly when its name ends with `.script`; every
      button carries this file's name. */
  function ItemFor(file: string): (item: FileItem)
    ensures item.text == file
    ensures |item.buttons| >= 1 && item.buttons[0] == Button(Delete, file)
    ensures Button(Load, file) in item.buttons <==> EndsWith(file, ScriptSuffix)
    ensures Button(Play, file) in item.buttons <==> EndsWith(file, ScriptSuffix)
    ensures |item.buttons| == if EndsWith(file, ScriptSuffix) then 3 else 1
    ensures forall b :: 0 <= b < |item.buttons| ==> item.buttons[b].filename == file
    ensures EndsWith(file, ScriptSuffix) ==> item.buttons[1].action == Load && item.buttons[2].action == Play
  {
    FileItem(file, [Button(Delete, file)] + if IsScript(file) then [Button(Load, file), Button(Play, file)] else [])
  }

  /** The `sandbox_list` callback: the list is cleared and gets exactly one
      item per file, in the order the server returned them, each item's
      buttons bound to that item's own file. */
  method RenderFileList(fileList: seq<string>) returns (items: seq<FileItem>)
    ensures items == FileList(fileList)
    ensures |items| == |fileList|
    ensures forall i :: 0 <= i < |fileList| ==> items[i] == ItemFor(fileList[i])
    ensures forall i :: 0 <= i < |fileList| ==> items[i].text == fileList[i]
    ensures forall i :: 0 <= i < |fileList| ==>
      |items[i].buttons| == if EndsWith(fileList[i], ScriptSuffix) then 3 else 1
    ensures forall i, b :: 0 <= i < |fileList| && 0 <= b < |items[i].buttons| ==>
      Target(Click(items[i].buttons[b]).call) == fileList[i]
  {
    items := [];
    for f := 0 to |fileList|
      invariant |items| == f
      invariant forall i :: 0 <= i < f ==> items[i] == ItemFor(fileList[i])
    {
      var file := fileList[f];
      var buttons := [Button(Delete, file)];
      if Substr(file, -7, None) == ScriptSuffix {
        buttons := buttons + [Button(Load, file)];
        buttons := buttons + [Button(Play, file)];
      }
      items := items + [FileItem(file, buttons)];
    }
  }

  /** The items of a listing: one `ItemFor` per file, in the order given. */
  function FileList(fileList: seq<string>): (items: seq<FileItem>)
    ensures |items| == |fileList|
    ensures forall i :: 0 <= i < |fileList| ==> items[i] == ItemFor(fileList[i])
  {
    if fileList == [] then [] else [ItemFor(fileList[0])] + FileList(fileList[1..])
  }

  /** The worked example: `a.script` gets all three buttons, `b.txt` only delete. */
  lemma FileListExample()
    ensures ItemFor("a.script").buttons ==
      [Button(Delete, "a.script"), Button(Load, "a.script"), Button(Play, "a.script")]
    ensures ItemFor("b.txt").buttons == [Button(Delete, "b.txt")]
  {
    assert IsScript("a.script");
    assert !IsScript("b.txt");
  }

  // ---------------------------------------------------------------------
  // Clicks, the editor and put_script
  // ---------------------------------------------------------------------

  /** The request that `get_sandbox_list` sends: `sandbox_list`, whose
      answer replaces the file list. */
  function ListRequest(): (r: Request)
    ensures r.call == SandboxList
    ensures forall names :: Complete(r, Names(names)) == Files(FileList(names))
  {
    Request(SandboxList, ShowFiles)
  }

  /** What a click sends: delete removes the file and then refreshes the
      list, load fetches it and fills the editor, play fires and forgets. */
  function Click(b: Button): (r: Request)
    ensures Target(r.call) == b.filename
    ensures r.call.SandboxRemove? <==> b.action == Delete
    ensures r.call.SandboxGet? <==> b.action == Load
    ensures r.call.SandboxPlay? <==> b.action == Play
    ensures r.onDone == Refresh <==> b.action == Delete
    ensures r.onDone.FillEditor? <==> b.action == Load
    ensures b.action == Play ==> r.onDone == NoCallback
  {
    match b.action
    case Delete => Request(SandboxRemove(b.filename), Refresh)
    case Load => Request(SandboxGet(b.filename), FillEditor(b.filename))
    case Play => Request(SandboxPlay(b.filename), NoCallback)
  }

  /** The file a sandbox call names (`show_section` names none). */
  function Target(call: Call): string {
    match call
    case ShowSection(_, _) => ""
    case SandboxList => ""
    case SandboxRemove(f) => f
    case SandboxGet(f) => f
    case SandboxPut(name, _) => name
    case SandboxPlay(f) => f
  }

  /** What the server answers: the file names for `sandbox_list`, the
      script text for `sandbox_get`, and nothing of use for the others. */
  datatype Response = Names(names: seq<string>) | Data(text: string) | Done

  /** What running a request's completion callback does. */
  datatype Outcome =
    | Idle
      /** the file list is rebuilt with these items */
    | Files(items: seq<FileItem>)
      /** the editor fields are filled */
    | Filled(editor: Editor)
      /** another request is sent */
    | Sent(request: Request)

  /** The completion callback of `r` run on `response`. A response whose
      shape does not fit the callback leaves everything as it was. */
  function Complete(r: Request, response: Response): Outcome {
    match r.onDone
    case NoCallback => Idle
    case Refresh => Sent(Request(SandboxList, ShowFiles)) // `get_sandbox_list()`, as `ListRequest`
    case ShowFiles => if response.Names? then Files(FileList(response.names)) else Idle
    case FillEditor(f) => if response.Data? then Filled(OnLoaded(f, response.text)) else Idle
  }

  /** After a click's call completes: delete asks for the list again, load
      fills the editor from the returned data for the button's own file,
      and play does nothing more. */
  lemma ClickCompletes(b: Button, response: Response)
    ensures b.action == Delete ==> Complete(Click(b), response) == Sent(ListRequest())
    ensures b.action == Load && response.Data? ==>
      Complete(Click(b), response) == Filled(OnLoaded(b.filename, response.text))
    ensures b.action == Play ==> Complete(Click(b), response) == Idle
  {
  }

  /** Loading any listed file through its load button fills the editor with
      the returned data under a name that `.script` completes to that file. */
  lemma LoadFromListing(names: seq<string>, i: int, b: int, data: string)
    requires 0 <= i < |names| && 0 <= b < |FileList(names)[i].buttons|
    requires FileList(names)[i].buttons[b].action == Load
    ensures var o := Complete(Click(FileList(names)[i].buttons[b]), Data(data));
      o.Filled? && o.editor.script == data && o.editor.scriptName + ScriptSuffix == names[i]
  {
    var item := FileList(names)[i];
    assert item == ItemFor(names[i]);
    assert item.buttons[b] == Button(Load, names[i]);
    assert Button(Load, names[i]) in item.buttons;
  }

  /** The calls a request leads to, in order: the call itself, then the
      list request when `get_sandbox_list` is its completion callback. */
  function Trace(r: Request): (calls: seq<Call>)
    ensures |calls| >= 1 && calls[0] == r.call
    ensures SandboxList in calls[1..] <==> r.onDone == Refresh
  {
    [r.call] + if r.onDone == Refresh then [ListRequest().call] else []
  }

  /** Delete removes and then refreshes, never the other way round; load and
      play send one call and do not refresh. */
  lemma ClickTrace(b: Button)
    ensures b.action == Delete ==> Trace(Click(b)) == [SandboxRemove(b.filename), SandboxList]
    ensures b.action == Load ==> Trace(Click(b)) == [SandboxGet(b.filename)]
    ensures b.action == Load ==> Click(b).onDone == FillEditor(b.filename)
    ensures b.action == Play ==> Trace(Click(b)) == [SandboxPlay(b.filename)]
  {
  }

  /** The two editor fields `scriptname` and `script`. */
  datatype Editor = Editor(scriptName: string, script: string)

  /** The `sandbox_get` callback for `filename`: the name field gets the
      name without its last seven characters, the script field the data.
      A name shorter than seven characters gives a negative `substr`
      length, so an empty name field. */
  function OnLoaded(filename: string, data: string): (e: Editor)
    ensures e.script == data
    ensures EndsWith(filename, ScriptSuffix) ==> e.scriptName + ScriptSuffix == filename
    ensures |filename| >= 7 ==> e.scriptName == filename[..|filename| - 7]
    ensures |filename| < 7 ==> e.scriptName == []
  {
    DropSuffix(filename);
    Editor(Substr(filename, 0, Some(|filename| - 7)), data)
  }

  /** JavaScript cuts `filename.length - 7` code units, not characters. For
      a `.script` name, the only kind with a load button, the two cuts agree:
      the name field holds the code units before the suffix. */
  lemma LoadCutUtf16(filename: string, data: string)
    requires EndsWith(filename, ScriptSuffix)
    ensures var u := Utf16(filename);
      |u| >= 7 && Utf16(OnLoaded(filename, data).scriptName) == u[..|u| - 7]
  {
    var p := filename[..|filename| - 7];
    assert OnLoaded(filename, data).scriptName == p;
    assert filename == p + ScriptSuffix;
    SuffixUnits();
    Utf16Concat(p, ScriptSuffix);
  }

  /** `.script` is seven code units. */
  lemma SuffixUnits()
    ensures |Utf16(ScriptSuffix)| == 7
  {
    AsciiUtf16(ScriptSuffix);
  }

  /** Cutting the last seven characters off a script name leaves the part
      that `.script` completes again. */
  lemma DropSuffix(filename: string)
    ensures EndsWith(filename, ScriptSuffix) ==>
      Substr(filename, 0, Some(|filename| - 7)) + ScriptSuffix == filename
  {
    if EndsWith(filename, ScriptSuffix) {
      SubstrPrefix(filename, |filename| - 7);
      assert filename == filename[..|filename| - 7] + filename[|filename| - 7..];
    }
  }

  /** `put_script`: saves the editor under its name plus `.script` and
      refreshes the list when the call completes. */
  function PutScript(e: Editor): (r: Request)
    ensures r.call.SandboxPut? && r.call.data == e.script
    ensures EndsWith(r.call.name, ScriptSuffix)
    ensures r.onDone == Refresh
  {
    Request(SandboxPut(e.scriptName + ScriptSuffix, e.script), Refresh)
  }

  /** Once the save completes, the list is asked for again. */
  lemma PutCompletes(e: Editor, response: Response)
    ensures Complete(PutScript(e), response) == Sent(ListRequest())
  {
  }

  /** Saving puts the file and then refreshes the list, in that order. */
  lemma PutTrace(e: Editor)
    ensures Trace(PutScript(e)) == [SandboxPut(e.scriptName + ScriptSuffix, e.script), SandboxList]
  {
  }

  /** Loading a script and saving it unchanged writes back to the same file. */
  lemma LoadThenSave(filename: string, data: string)
    requires EndsWith(filename, ScriptSuffix)
    ensures PutScript(OnLoaded(filename, data)) == Request(SandboxPut(filename, data), Refresh)
  {
  }

  /** Saving and then loading the saved file gives the editor back. */
  lemma SaveThenLoad(e: Editor)
    ensures var r := PutScript(e); OnLoaded(r.call.name, r.call.data) == e
  {
    var name := e.scriptName + ScriptSuffix;
    SubstrPrefix(name, |name| - 7);
    assert name[..|name| - 7] == e.scriptName;
  }

  /** A saved script shows up in the next listing with load and play buttons. */
  lemma SavedFileIsScript(e: Editor)
    ensures |ItemFor(PutScript(e).call.name).buttons| == 3
  {
  }

  // ---------------------------------------------------------------------
  // Connection.main
  // ---------------------------------------------------------------------

  /** The elements `Connection.main` hides, in the order it hides them. */
  const HiddenByMain: seq<string> :=
    ["error", "login", "videodiv", "contents", "question", "speechbox", "navigation", "spritebox"]

  /** The page after a handler ran and the requests it sent. */
  datatype Effect = Effect(page: Page, requests: seq<Request>)

  /** `Connection.main`: hides every listed element, shows the sandbox and
      asks for the file list; other elements keep their display. The
      handler writes through globals (`error`, `login`, `videodiv`, ...)
      defined by the regular login page, which is not part of this model;
      each is taken to be the element whose id has the same name. */
  function Main(page: Page): (e: Effect)
    ensures VisibleAmong(e.page, HiddenByMain + ["sandbox"]) == {"sandbox"}
    ensures forall id :: id in HiddenByMain ==> id in e.page && e.page[id] == Hidden
    ensures forall id :: id in page && id !in HiddenByMain && id != "sandbox" ==>
      id in e.page && e.page[id] == page[id]
    ensures e.page.Keys == page.Keys + (set id | id in HiddenByMain + ["sandbox"])
    ensures e.requests == [ListRequest()]
  {
    var p := page["error" := Hidden]["login" := Hidden]["videodiv" := Hidden]["contents" := Hidden]
      ["question" := Hidden]["speechbox" := Hidden]["navigation" := Hidden]["spritebox" := Hidden]
      ["sandbox" := Block];
    assert VisibleAmong(p, HiddenByMain + ["sandbox"]) == {"sandbox"} by {
      assert Visible(p, "sandbox");
      assert "sandbox" in HiddenByMain + ["sandbox"];
    }
    Effect(p, [ListRequest()])
  }
}
