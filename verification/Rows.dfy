/** Where the rows of an image start when they are laid out one after the other. */
module Rows {

  function Start(pitch: nat, y: nat): nat {
    pitch * y
  }

  lemma StartMeans(pitch: nat, y: nat)
    ensures Start(pitch, y) == pitch * y
  {
  }

  lemma StartStep(pitch: nat, y: nat)
    ensures Start(pitch, y + 1) == Start(pitch, y) + pitch
  {
  }

  lemma {:induction false} StartGrows(pitch: nat, y: nat, z: nat)
    requires y < z
    ensures Start(pitch, y) + pitch <= Start(pitch, z)
    decreases z - y
  {
    StartStep(pitch, y);
    if y + 1 < z {
      StartGrows(pitch, y + 1, z);
    }
  }

  lemma StartAdd(pitch: nat, y: nat, more: nat)
    ensures Start(pitch, y + more) == Start(pitch, y) + Start(pitch, more)
  {
  }
}
