/**
 The calls the views send over the RPC channel. The channel itself (the
 `Rpc` constructor, the `server` proxy and push dispatch) is not part of
 this model: a request is the call together with what runs when it
 completes.
 */
module Rpc {

  datatype Call =
    | ShowSection(group: string, section: string)
    | SandboxList
    | SandboxRemove(filename: string)
    | SandboxGet(filename: string)
    | SandboxPut(name: string, data: string)
    | SandboxPlay(filename: string)

  /** What runs when a call completes. */
  datatype Continuation =
    | NoCallback
      /** `get_sandbox_list` is the callback: the file list is requested again. */
    | Refresh
      /** the `sandbox_list` callback: the file list is rebuilt from the response. */
    | ShowFiles
      /** the `sandbox_get` callback: the editor fields are filled for `filename`. */
    | FillEditor(filename: string)

  datatype Request = Request(call: Call, onDone: Continuation)
}
