/**
 * The values the loose-object and index parsers produce (the records and
 * enums of `git_parser/types.rs`). Every Rust `String` is held as its UTF-8
 * bytes.
 */
module Types {
  import opened Nom

  datatype ObjectType = Tree | Commit | Blob

  /** One entry of a tree: file mode digits, file name, and the child's hash as 40 hex digits. */
  datatype GitTreeEntry = GitTreeEntry(code: Bytes, fileName: Bytes, hash: Bytes)

  datatype GitTree = GitTree(entries: seq<GitTreeEntry>)

  datatype GitCommit = GitCommit(metadata: seq<Bytes>, content: seq<Bytes>)

  datatype GitBlob = GitBlob(content: seq<Bytes>)

  datatype GitObject =
    | CommitObject(commit: GitCommit)
    | TreeObject(tree: GitTree)
    | BlobObject(blob: GitBlob)

  /** The parts of a version 2 pack index that are kept: object names as hex text and pack offsets. */
  datatype GitIndexFile = GitIndexFile(objectNames: seq<Bytes>, offsets: seq<nat>)
}
