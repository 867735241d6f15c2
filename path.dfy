/**
 * Path-string helpers shared by the file system code: conversion between the
 * engine's internal separator '/' and the platform's native one, and removal of
 * one trailing separator. The build platform is a parameter (`windows`).
 */
module Path {
  import opened Str

  /** to_internal: every backslash becomes '/', nothing else changes. */
  function ToInternal(path: string): (r: string)
    ensures |r| == |path|
    ensures '\\' !in r
    ensures forall i :: 0 <= i < |path| && path[i] != '\\' ==> r[i] == path[i]
    ensures forall i :: 0 <= i < |path| && path[i] == '\\' ==> r[i] == '/'
  {
    ReplacedRemoves(path, '\\', '/');
    Replaced(path, '\\', '/')
  }

  lemma ToInternalIdempotent(path: string)
    ensures ToInternal(ToInternal(path)) == ToInternal(path)
  {
  }

  /** A path with no backslash is already in internal form. */
  lemma ToInternalFixed(path: string)
    requires '\\' !in path
    ensures ToInternal(path) == path
  {
  }

  /** to_native: on Windows every '/' becomes '\\'; on other platforms the identity. */
  function ToNative(path: string, windows: bool): (r: string)
    ensures !windows ==> r == path
    ensures |r| == |path|
    ensures windows ==> '/' !in r
    ensures windows ==> forall i :: 0 <= i < |path| && path[i] != '/' ==> r[i] == path[i]
    ensures windows ==> forall i :: 0 <= i < |path| && path[i] == '/' ==> r[i] == '\\'
  {
    if windows then
      ReplacedRemoves(path, '/', '\\');
      Replaced(path, '/', '\\')
    else path
  }

  /** On Windows, converting to native form and back to internal form gives the internal form. */
  lemma NativeInternalRoundTrip(path: string)
    ensures ToInternal(ToNative(path, true)) == ToInternal(path)
  {
  }

  /** trim_end_slash: one trailing '/' removed, if present. */
  function TrimEndSlash(path: string): (r: string)
    ensures |path| > 0 && path[|path| - 1] == '/' ==> r == path[..|path| - 1]
    ensures !(|path| > 0 && path[|path| - 1] == '/') ==> r == path
    ensures r == path[..|r|] && |path| - 1 <= |r| <= |path|
  {
    if |path| > 0 && path[|path| - 1] == '/' then path[..|path| - 1] else path
  }
}
