# lesverhaal admin and sandbox views — a Dafny model

This project models the two browser-side view controllers of lesverhaal,
a tool for running educational lessons. Both views receive payloads pushed or returned over an RPC
connection and rebuild parts of the page from them:

- the **admin view** (`admin.js`) switches between the `login`, `groups`,
  `table` and `single` panels, lists the groups with one link per section,
  and shows a students table with each student's answers per question;
- the **sandbox view** (`sandbox.js`) shows the sandbox panel, lists the
  user's script files with delete / load / play buttons, fills the editor
  from a loaded script and saves the editor back with `put_script`.

The DOM is abstracted to plain data. A page is a map from element id to its
display (`block` or `none`). The rendered containers are values: group
entries with links, a table of header texts and rows of cells, and list
items with buttons. Every outgoing call is a `Request`: the call plus what
runs when it completes. Each render takes only the payload, so what a
container held before cannot show through. This is how the model states
that each handler clears its container before filling it.

JavaScript semantics the views depend on are written out in module `Js`:

- `String(v)` and truthiness on a scalar value type;
- strings as sequences of UTF-16 code units (`Js.Utf16`), which is what
  `length`, indexing and `substr` count. A character above U+10000, such
  as an emoji, is two code units. The answer formatter and the table cell
  texts work on code units;
- `substr` as ECMAScript Annex B defines it, including a negative start.
  The model applies it to the characters of a file name. Lemmas show that
  this agrees with the code-unit reading for the `.script` test and for
  the cut that the load callback makes on a `.script` name
  (`Sandbox.ScriptTestUtf16`, `Sandbox.LoadCutUtf16`);
- `replace` with a string pattern, which replaces only the first match;
- the decimal form of an array length.

A number is carried by its string form, since floating-point printing is
outside the model.

Modules: `Js` (js.dfy), `Dom` (dom.dfy), `Rpc` (rpc.dfy), `Admin`
(admin.dfy), `Sandbox` (sandbox.dfy).

Two points where the code does something other than what one might expect
from its purpose. The model follows the code in both:

- `parse` checks `ans.length == 2`. A string answer of two code units
  passes that check, just as a `[value, unit]` pair does. So `"ab"` is
  shown as `"a b"` and `".5"` as `", 5"`. A single emoji is two code
  units, so it is split between its two surrogate halves.
  `Admin.ParseTwoCharText` and `Admin.JsLengthTwo` state this. A number
  answer has no `length` and is shown unchanged.
- The name colour and the cell background test truthiness instead of
  comparing with `true` and `false`. Only the grey case compares, strictly,
  with `null`. So a status of `0` or `""` is blue, and only `null` is grey.

## Model

| member | source | states |
|---|---|---|
| `Js.Substr` | sandbox_html/code/sandbox.js:32 | `substr` never returns more characters than the string has |
| `Js.SubstrFromEnd` | sandbox_html/code/sandbox.js:32 | `s.substr(-k)` is the last k characters, or the whole string when it is shorter than k |
| `Js.SubstrPrefix` | sandbox_html/code/sandbox.js:36 | `s.substr(0, n)` is the first n characters when n is between 0 and the length |
| `Js.ReplaceFirst` | admin_html/code/admin.js:58 | `replace('.', ',')` keeps the length, changes only the first `.` (into `,`) and keeps every other character |
| `Js.ReplaceFirstAbsent` | admin_html/code/admin.js:58 | a value without a `.` is shown unchanged |
| `Js.NatToString` | admin_html/code/admin.js:70 | the printed answer count is one or more digits with no leading zero |
| `Js.DecimalRoundTrip` | admin_html/code/admin.js:70 | the printed count reads back as the count |
| `Admin.ShowIn` | admin_html/code/admin.js:6-9 | after the loop each listed panel is shown iff its id equals `which`; every listed id gets a display, and other elements keep theirs |
| `Admin.Show` | admin_html/code/admin.js:4-9 | a managed panel is visible iff its id is the argument |
| `Admin.ShowVisibleSet` | admin_html/code/admin.js:4-9 | the visible managed panels are exactly {w} when w is a managed id, and none for `null` or an unknown id; so at most one is visible |
| `Admin.ShowInLastWins` | admin_html/code/admin.js:6-9 | a second switch over the same ids overrides the first completely |
| `Admin.ShowLastWins` | admin_html/code/admin.js:6-9 | `show(a); show(b)` leaves the page as `show(b)` alone: only the argument matters |
| `Admin.ShowIdempotent` | admin_html/code/admin.js:6-9 | calling `show` twice with the same id equals calling it once |
| `Admin.Init` | admin_html/code/admin.js:11-15 | `init` leaves every managed panel hidden and gives each one a display |
| `Admin.OnLogin` | admin_html/code/admin.js:26-29 | the `login` push leaves exactly the login panel visible |
| `Admin.ClickLink` | admin_html/code/admin.js:40-44 | a link's click calls `show_section` with the group and section stored on that link, and nothing runs after it |
| `Admin.SectionLink` | admin_html/code/admin.js:40-44 | clicking a section link calls `show_section` with that link's own group and section, with no completion callback |
| `Admin.RenderGroup` | admin_html/code/admin.js:36-45 | a group's entry is labelled `name + ': '` and has one link per section (`group.length - 1`), in section order |
| `Admin.BuildLinks` | admin_html/code/admin.js:39-45 | the inner loop produces exactly the group's links in section order |
| `Admin.BuildGroups` | admin_html/code/admin.js:35-46 | the outer loop produces one entry per group, in payload order |
| `Admin.GroupList` | admin_html/code/admin.js:30-46 | shows the groups panel and builds one entry per group in payload order. Each link reads `name (count)`, and its click sends `show_section(group[0], group[s][0])` for its own group and section |
| `Js.Utf16Char` | admin_html/code/admin.js:57-58 | a character below U+10000 is one code unit, and any other character is a high surrogate followed by a low one |
| `Js.Utf16` | admin_html/code/admin.js:57-58 | a text has at least as many code units as characters, and exactly as many when every character is below U+10000 |
| `Js.Utf16Concat` | admin_html/code/admin.js:58 | the code units of a concatenation are the two texts' code units concatenated |
| `Js.AsciiUtf16` | admin_html/code/admin.js:58 | a text of characters below U+10000 has one code unit per character, equal to its code |
| `Js.EndsWithUtf16` | sandbox_html/code/sandbox.js:32 | a text ends with a suffix of characters below U+10000 iff its code units end with the suffix's code units, in both directions |
| `Admin.Parse` | admin_html/code/admin.js:57-59 | an answer whose `length` in code units is not 2 (a number, or a string of another length) is shown as it is. A text of two code units becomes three units with a space in the middle, so it never stays as typed. A pair becomes the value's string form with only its first `.` turned into `,`, then a space, then the unit's string form |
| `Admin.JsLengthTwo` | admin_html/code/admin.js:58 | a text's `length` is 2 iff it is two characters below U+10000 or one character above it |
| `Admin.ParseTwoCharText` | admin_html/code/admin.js:58 | a string answer of two code units is split around a space into its two units (a leading `.` becomes `,`), so it is never shown as typed |
| `Admin.ParseTwoCharExamples` | admin_html/code/admin.js:58 | `"ab"` shows as `"a b"` and `".5"` as `", 5"` |
| `Admin.ParseEmojiExamples` | admin_html/code/admin.js:58 | the emoji U+1F600 shows as its high surrogate, a space and its low surrogate, while `"a"` followed by that emoji (three code units) shows as typed |
| `Admin.NameColor` | admin_html/code/admin.js:62 | the name is uncoloured iff the status is truthy, grey iff it is `null`, and blue iff it is falsy and not `null` |
| `Admin.NameColorTriState` | admin_html/code/admin.js:62 | status `true` gives the default colour, `false` blue and `null` grey |
| `Admin.RenderCell` | admin_html/code/admin.js:64-73 | green iff the correctness flag is truthy, else no background. No text iff answers are `null` or empty. Otherwise the first line is the first answer, and a second line exists iff there is more than one answer |
| `Admin.BackgroundIgnoresAnswers` | admin_html/code/admin.js:73 | two cells whose flags have the same truthiness get the same background, whatever their answers |
| `Admin.SecondLineReadsBack` | admin_html/code/admin.js:68-70 | the second line splits at its first `:` into digits with no leading zero giving the number of answers and the last answer as parsed |
| `Admin.ParsePairExample` | admin_html/code/admin.js:58 | the answer `[7.5, 'pts']` shows as `7,5 pts` |
| `Admin.PairCellExample` | admin_html/code/admin.js:65-73 | `[true, [[7.5, 'pts']]]` shows `7,5 pts` on green |
| `Admin.ListCellExample` | admin_html/code/admin.js:65-73 | `[false, [1, 2, 3]]` shows `1` and `3:3` with no background, and an empty list shows nothing |
| `Admin.StudentRow` | admin_html/code/admin.js:61-74 | a student's row has the name in its status colour, then one cell per question (`student.length - 2`), each being that question's cell |
| `Admin.BuildCells` | admin_html/code/admin.js:63-74 | the cell loop produces exactly the row's cells in question order |
| `Admin.BuildHeader` | admin_html/code/admin.js:52-55 | the header has `1 + |questions|` cells: the group name, then each question's title in order |
| `Admin.BuildRows` | admin_html/code/admin.js:60-75 | one row per student, in payload order |
| `Admin.StudentsList` | admin_html/code/admin.js:48-75 | shows the table panel. The header is the group name plus each question title in order. There is one row per student with the coloured name, and each row has one rendered cell per question |
| `Sandbox.IsScript` | sandbox_html/code/sandbox.js:32 | the `substr(-7) == '.script'` test holds iff the name ends in `.script`; a name shorter than seven characters never passes |
| `Sandbox.ScriptTestUtf16` | sandbox_html/code/sandbox.js:32 | the test on characters agrees with the test on code units, for every name |
| `Sandbox.ItemFor` | sandbox_html/code/sandbox.js:24-47 | an item shows its file name and always has Delete first. It has Load and Play iff the name ends in `.script`, so 3 buttons against 1, with Load second and Play third. Every button carries that item's own file name |
| `Sandbox.FileList` | sandbox_html/code/sandbox.js:22-48 | the list built from a response has one `ItemFor` item per file name, in the order returned |
| `Sandbox.RenderFileList` | sandbox_html/code/sandbox.js:21-49 | the loop builds exactly `FileList` of the response: one item per file in the order returned. Each item has 3 or 1 buttons by suffix, and every button's click names its own item's file, never another's |
| `Sandbox.FileListExample` | sandbox_html/code/sandbox.js:26-47 | `a.script` gets delete, load and play; `b.txt` gets only delete |
| `Sandbox.ListRequest` | sandbox_html/code/sandbox.js:20-22 | `get_sandbox_list` calls `sandbox_list`, and when the call completes with a list of names the file list is rebuilt as `FileList` of those names |
| `Sandbox.Click` | sandbox_html/code/sandbox.js:26-44 | a click's call names the file on its own button. Delete sends remove and is the only action that refreshes the list. Load sends get and is the only one that fills the editor. Play sends play with no completion callback |
| `Sandbox.ClickCompletes` | sandbox_html/code/sandbox.js:27-44 | when a click's call completes, delete sends the list request again, load fills the editor from the returned data for the button's own file, and play does nothing more |
| `Sandbox.LoadFromListing` | sandbox_html/code/sandbox.js:22-38 | pressing any load button of a listing and receiving data fills the script field with that data and the name field with a name that `.script` completes to the listed file |
| `Sandbox.Trace` | sandbox_html/code/sandbox.js:27 | a request's calls start with the call itself, and a list refresh follows iff `get_sandbox_list` is its completion callback |
| `Sandbox.ClickTrace` | sandbox_html/code/sandbox.js:26-44 | delete sends remove and then the list request, never the reverse. Load sends only the get, and its callback fills the editor for the button's own file. Play sends only the play, with no refresh |
| `Sandbox.OnLoaded` | sandbox_html/code/sandbox.js:34-38 | the script field gets the returned data. The name field is the name without its last seven characters, or empty for a name shorter than seven. For a `.script` file, the name field plus `.script` is the file name again |
| `Sandbox.LoadCutUtf16` | sandbox_html/code/sandbox.js:36 | for a `.script` name, the name field is exactly the code units before the last seven, as JavaScript cuts them |
| `Sandbox.DropSuffix` | sandbox_html/code/sandbox.js:36 | cutting the last seven characters off a `.script` name leaves exactly the part before the suffix |
| `Sandbox.PutScript` | sandbox_html/code/sandbox.js:52-56 | `put_script` saves the editor's data under a name ending in `.script` and refreshes the list when the save completes |
| `Sandbox.PutCompletes` | sandbox_html/code/sandbox.js:55 | when the save completes, the list request is sent again |
| `Sandbox.PutTrace` | sandbox_html/code/sandbox.js:52-56 | saving sends the put for `scriptname + '.script'` with the editor's data, and then the list request |
| `Sandbox.LoadThenSave` | sandbox_html/code/sandbox.js:34-37 | loading a `.script` file and saving it unchanged writes the same data back to the same file name |
| `Sandbox.SaveThenLoad` | sandbox_html/code/sandbox.js:53 | loading the file that `put_script` wrote gives back the editor's name and script |
| `Sandbox.SavedFileIsScript` | sandbox_html/code/sandbox.js:53 | a saved file is listed with all three buttons |
| `Sandbox.Main` | sandbox_html/code/sandbox.js:3-18 | hides every listed element and shows `sandbox`, so among them exactly `sandbox` is visible. The page gains displays for exactly those elements, and every other element keeps its display. It then sends exactly the list request |

## Left out

- The DOM API (`AddElement`, `ClearAll`, `AddText`, `style`, `getElementById`). Containers are values, not element trees.
- The RPC runtime (`Rpc`, the `server` proxy, `server.call`, push dispatch). It is not part of this model, so calls are data.
- Out-of-order arrival of responses. Each callback is modelled as running alone, on its own response.
- Number formatting: a number is taken with its string form already given.
- `alert`, `console.info`, and the `replaced` handler that re-runs `init` (user notices and reconnection).
- The container lookups in `init` and its creation of the RPC object. Only its `show(null)` is modelled, as `Admin.Init`.
- `log_in`, which reads the form fields and calls `server.login`: it is form I/O.
- `student_detail`, a stub whose only effect is clearing its container. Its real contract does not exist yet.
- In `Connection.main`: `video.pause()`, the loop that applies `delete` to each property enumerated on the question element's `style`, and `kinetic_script = null`. These are media and style side effects outside the view logic.
- The globals that `Connection.main` writes through (`error`, `login`, `videodiv`, ...) are defined by the regular login page, which is not part of this model. Each is taken to be the element whose id has the same name.
- Sandbox.Main: it keeps `question` hidden after that loop. This assumes the `delete`s leave `display` as it is: the style properties are accessors on the prototype, not own properties of the style object, so deleting them through the object has no effect.
- The `type = 'button'` attribute, the button captions (`Verwijderen`, `Laden`, `Spelen`), and the position of the name text between the delete button and the other buttons. They are static markup: a button carries its action instead of its caption.
- Answer shapes outside pair / string / number. A `null`, `undefined` or boolean answer, or an array of another length, is not modelled. `parse` would throw on the first two and stringify the others.
- Group names, section names, student names and question titles are strings in the model. A payload that puts another value type there is not modelled.
- Js.Substr: its own contract only bounds the length. The two uses in the view are stated exactly by `Js.SubstrFromEnd` and `Js.SubstrPrefix`.
- Sandbox.OnLoaded: it cuts seven characters, while JavaScript cuts seven code units. `Sandbox.LoadCutUtf16` shows the two agree on `.script` names, the only files with a Load button. For another name that has a character above U+10000 among its last seven characters, the two cuts differ. The model does not cover that case, because no click can reach it.
- Responses whose shape does not fit the callback (a `sandbox_list` answer that is not a list of names, a `sandbox_get` answer that is not text). `Sandbox.Complete` leaves everything unchanged for them, and the lemmas only speak of well-shaped responses.
- File names, editor fields and call arguments are Dafny strings (characters), not code units. The only places where the views measure or index a file name are the `.script` test and the load cut, and both are related to code units by lemmas.
