/** The check that a path below a root is safe to use as it stands. */
module RelativePaths {
  import opened Bytes
  import opened GameId

  const TEXT_SIZE: nat := 512

  lemma TextSizeIs()
    ensures TEXT_SIZE == 512
  {
  }

  /** The byte loop over the components accepts exactly the canonical paths that fit. */
  method SafeRelativePath(value: ByteString) returns (safe: bool)
    ensures safe <==> Canonical(value) && |value| < 512
  {
    hide *;
    TextSizeIs();
    if value == [] || value[0] == SLASH || |value| >= TEXT_SIZE {
      UnsafeStart(value);
      return false;
    }
    assert value[0..] == value;
    var component := 0;
    while component < |value|
      invariant component <= |value| < TEXT_SIZE
      invariant Canonical(value) <==> Canonical(value[component..])
      decreases |value| - component
    {
      var end, fine := Component(value, component);
      if !fine {
        return false;
      }
      if end == |value| {
        return true;
      }
      component := end + 1;
    }
    EmptyNotCanonical();
    assert value[component..] == [];
    return false;
  }

  /** The component that starts here, and whether it may be part of a canonical path. */
  method Component(value: ByteString, component: nat) returns (end: nat, fine: bool)
    requires component < |value|
    ensures component <= end <= |value|
    ensures Canonical(value[component..]) <==> fine && (end < |value| ==> Canonical(value[end + 1..]))
  {
    end := component;
    while end < |value| && value[end] != SLASH
      invariant component <= end <= |value| && SLASH !in value[component..end]
    {
      end := end + 1;
    }
    var segment := value[component..end];
    FirstComponent(value[component..], segment);
    assert end < |value| ==> value[component..][|segment| + 1..] == value[end + 1..];
    hide Canonical, Split;
    if Dropped(segment) || segment == DOT_DOT {
      return end, false;
    }
    var index := 0;
    while index < |segment|
      invariant 0 <= index <= |segment| && forall k | 0 <= k < index :: !Unsafe(segment[k])
    {
      if Unsafe(segment[index]) {
        return end, false;
      }
      index := index + 1;
    }
    return end, true;
  }

  lemma UnsafeStart(value: ByteString)
    ensures value == [] || value[0] == SLASH ==> !Canonical(value)
  {
    if value == [] || value[0] == SLASH {
      assert Split(value)[0] == [];
    }
  }

  lemma EmptyNotCanonical()
    ensures !Canonical([])
  {
    assert Split([])[0] == [];
  }

  /** A path is canonical when its first component is fine and the rest, if any, is canonical. */
  lemma FirstComponent(path: ByteString, segment: ByteString)
    requires segment <= path && SLASH !in segment && (|segment| < |path| ==> path[|segment|] == SLASH)
    ensures Canonical(path) <==>
              && Safe(segment) && !Dropped(segment)
              && (|segment| < |path| ==> Canonical(path[|segment| + 1..]))
  {
    var rest := path[|segment|..];
    SplitSegment(segment, rest);
    assert path == segment + rest;
    var whole := Split(path);
    assert whole[0] == segment;
    if rest != [] {
      assert rest[1..] == path[|segment| + 1..];
      assert Split(rest) == [[]] + Split(rest[1..]);
      assert whole[1..] == Split(rest[1..]);
      assert forall i | 0 < i < |whole| :: whole[i] == whole[1..][i - 1];
      assert forall i | 0 <= i < |whole| - 1 :: whole[1..][i] == whole[i + 1];
    }
  }
}
