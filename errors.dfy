/** The error values the modelled Go functions return, one constructor per distinct message. */
module Errors {
  import opened FileSystem

  datatype Error =
    // pkg/file
    | DirNotFound(path: string)          // the directory does not exist or cannot be accessed
    | NotAFolder(path: string)           // the path is not a directory
    | ReadDirFailed(cause: FsError)      // os.ReadDir failed
    | StatFailed(path: string)           // os.Stat of a listed entry failed
    | MetaOfDirectory(path: string)      // GetFileMeta was given a directory
    | EmptyDirArgument                   // an empty directory argument
    | SourceMissing(path: string)        // RenameFile: the old path does not exist
    | SourceIsDirectory(path: string)    // RenameFile: the old path is a directory
    | TargetExists(path: string)         // the target exists and no suffix was allowed
    | TooManyTries                       // no free suffixed name within maxTry probes
    | RenameFailed(cause: FsError)       // os.Rename failed
    // pkg/file/order_file.go
    | BadLength(length: int)
    | NothingToOrder(dir: string)
    | WidthTooSmall(count: nat, digits: nat, length: int)
    | TempRenameFailed(src: string, dst: string)
    | FinalRenameFailed(src: string, dst: string)
    | NameCollision(dir: string)         // only the corrected renumbering reports this
    // internal/handler/shortcut.go
    | UnknownShortcut(key: string)
    | NoTargetDir(key: string)
    | FileNotFound(path: string)
    | MkdirFailed(cause: FsError)
    | MoveFailed(reason: Error)
    | NothingToUndo
    | UndoTargetGone(path: string)
    | UndoFailed(reason: Error)
}
