/** The two path operations the script uses: `os.path.join` and the `root` values of `os.walk`. */
module PosixPath {
  import opened Text

  /** `os.path.join(a, b)` on POSIX: an absolute `b` replaces `a`; otherwise one `/` separates them. */
  function Join(a: string, b: string): string {
    if StartsWith(b, "/") then b
    else if a == [] || EndsWith(a, "/") then a + b
    else a + "/" + b
  }

  /**
    One file reported by `os.walk(top)`: the path of its directory relative to `top` (empty for
    `top` itself) and its name. A walk is a given sequence of these.
  */
  datatype WalkEntry = WalkEntry(dir: string, file: string)

  /** The `root` that `os.walk(top)` yields for the directory of `e`. */
  function WalkRoot(top: string, e: WalkEntry): string {
    if e.dir == [] then top else Join(top, e.dir)
  }

  /** `os.path.join(root, file)` for a walked file. */
  function WalkPath(top: string, e: WalkEntry): string {
    Join(WalkRoot(top, e), e.file)
  }
}
