/** Values shared by every part of the dumbsync model. */
module Types {

  datatype Option<+T> = None | Some(value: T)

  datatype Result<+R, +E> = Success(value: R) | Failure(error: E)

  /** A path relative to the synchronisation root, compared as plain text. */
  type Path = string

  predicate IsLowerHexDigit(c: char) {
    ('0' <= c <= '9') || ('a' <= c <= 'f')
  }

  /** What `Hash::to_hex` yields for a BLAKE3 digest: 64 lower-case hex digits. */
  predicate IsHexDigest(s: string) {
    |s| == 64 && forall i :: 0 <= i < |s| ==> IsLowerHexDigit(s[i])
  }

  type HexDigest = s: string | IsHexDigest(s)
    witness seq(64, _ => '0')

  /** The failures the core reports (everything else is left to collaborators). */
  datatype Error =
    | Unreadable(path: Path)     // hashing the file at `path` failed
    | FetchFailed(url: string)   // the manifest could not be fetched
}
