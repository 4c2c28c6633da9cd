/** Path composition as Python's `os.path.join` performs it on POSIX. */
module Paths {
  /** `os.path.join(dir, name)` for a relative `name`: one `/` between, unless `dir`
      is empty or already ends with one. */
  function PathJoin(dir: string, name: string): (p: string)
    ensures |p| >= |name| && p[|p| - |name|..] == name
  {
    if dir == [] || dir[|dir| - 1] == '/' then dir + name else dir + "/" + name
  }
}
