/**
 * A GitHub repository, with the fields the project registry and the
 * repository picker read. The `Repository` declaration itself lives in
 * src/types/gh_user.ts, which is not part of this model.
 */
module Repositories {
  import opened Wrappers

  datatype Repository = Repository(
    id: int,
    name: string,
    description: Option<string>,   // null or absent: None
    visibility: string,            // "public" or "private"
    pushedAt: Option<int>)         // `pushed_at` as milliseconds since the epoch; absent or empty: None
}
