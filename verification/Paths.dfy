/** Paths as their components. */
module Paths {
  type Path = seq<string>

  predicate Within(path: Path, root: Path) {
    root <= path
  }
}
