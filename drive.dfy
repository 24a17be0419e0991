/** The optional value used throughout the model for JavaScript's `undefined`/`null`. */
module Wrappers {
  datatype Option<+T> = None | Some(value: T)
}

/**
 The shapes of the Google Drive v3 answers that the synchroniser reads. Only the
 fields the code looks at are kept; the client calls themselves are not modelled,
 their answers are inputs.
 */
module Drive {
  import opened Wrappers

  /** One entry of `file.owners`. */
  datatype Owner = Owner(displayName: Option<string>)

  /** `imageMediaMetadata.location`: latitude and longitude as their JSON number text, each possibly absent. */
  datatype Coords = Coords(latitude: Option<string>, longitude: Option<string>)

  /** `imageMediaMetadata.time`: either a loosely formatted date string or a number. */
  datatype CaptureTime = TimeText(text: string) | TimeNumber(seconds: int)

  datatype MediaMetadata = MediaMetadata(location: Option<Coords>, time: Option<CaptureTime>)

  datatype File = File(
    id: string,
    mimeType: string,
    fileExtension: string,
    owners: seq<Owner>,
    createdTime: string,
    trashed: bool,
    imageMediaMetadata: Option<MediaMetadata>)

  /** One page of `files.list`. */
  datatype FileList = FileList(files: seq<File>, nextPageToken: Option<string>)

  /** One entry of `changes.list`; `kind` is the change's `type` field. */
  datatype Change = Change(kind: string, fileId: string, removed: bool, file: Option<File>)

  /** One page of `changes.list`. */
  datatype ChangeList = ChangeList(changes: seq<Change>, nextPageToken: Option<string>, newStartPageToken: Option<string>)

  /** What a `files.list` request gives back: a page, an answer without data, or a rejected request. */
  datatype ListResponse = Listed(list: FileList) | ListNoData | ListFailed

  /**
   What a `changes.list` request gives back. The request's rejection is caught and
   leaves `resp` undefined, so a failure reads exactly as an answer without data.
   */
  datatype ChangeResponse = ChangesListed(list: ChangeList) | ChangesNoData

  /** JavaScript truthiness of an optional token: present and not the empty string. */
  predicate Truthy(token: Option<string>) {
    token.Some? && token.value != ""
  }
}
