/** The chat page's entities and fixed tables: the message record, the four
    vibes, the six orbit presets and the conversation it starts with, and
    the index arithmetic that picks a vibe or a preset for a card. */
module Messages {

  datatype Role = Usuario | Nexus

  /** One chat message. `id` and `timestamp` are opaque strings: the page
      fills them from a random UUID and the wall clock. */
  datatype Message = Message(
    id: string,
    role: Role,
    content: string,
    vibeIndex: int,
    timestamp: string)

  /** The label of each vibe; the colour tokens beside them are cosmetic. */
  const VibeLabels: seq<string> := [
    "ÓRBITA EMPÁTICA",
    "VISIÓN SINTÉTICA",
    "PULSO NARRATIVO",
    "TRAZA ANALÍTICA"
  ]

  const VibeCount: nat := |VibeLabels|

  /** A vibe index the page can draw: `Math.floor(Math.random() * 4)`. */
  predicate IsVibe(v: int) { 0 <= v < VibeCount }

  /** The quotient JavaScript's `%` goes with: `a / b` truncated toward
      zero. */
  function JsQuot(a: int, b: int): int
    requires b > 0
  {
    if a >= 0 then a / b else -((-a) / b)
  }

  /** `a % b` as JavaScript computes it on integers: truncating, so the
      remainder takes the sign of `a`. It is what is left of `a` after the
      truncated quotient's multiple of `b`, which with the bounds and the
      sign fixes it. */
  function JsRem(a: int, b: int): (r: int)
    requires b > 0
    ensures -b < r < b
    ensures a >= 0 ==> r == a % b
    ensures a < 0 ==> r <= 0
    ensures a == b * JsQuot(a, b) + r
  {
    if a >= 0 then a % b else -((-a) % b)
  }

  /** `message.vibeIndex % VIBES.length`: the vibe a card is drawn with. Any
      index the page ever stores is its own slot; a negative one (never
      stored) would give a slot of zero or below. */
  function VibeSlot(vibeIndex: int): (r: int)
    ensures IsVibe(vibeIndex) ==> r == vibeIndex
    ensures vibeIndex >= 0 ==> IsVibe(r)
    ensures vibeIndex < 0 ==> -(VibeCount as int) < r <= 0
  {
    JsRem(vibeIndex, VibeCount)
  }

  /** Non-negative vibe indices select vibes cyclically, four apart. */
  lemma VibeSlotPeriodic(vibeIndex: nat)
    ensures VibeSlot(vibeIndex + VibeCount) == VibeSlot(vibeIndex)
  {
  }

  datatype Orbit = Orbit(radius: int, angle: int, elevation: int, tilt: int, float: int)

  const Orbits: seq<Orbit> := [
    Orbit(240, -22, -70, -8, 0),
    Orbit(320, 15, -120, 12, 12),
    Orbit(260, 42, -20, -16, -14),
    Orbit(300, -58, 60, 18, 16),
    Orbit(210, 78, 110, -12, -8),
    Orbit(340, -102, -140, 22, 18)
  ]

  /** `ORBITS[index % ORBITS.length]`: the preset of the card at `index`
      of the message list. Presets repeat every six cards. */
  function OrbitFor(index: nat): (o: Orbit)
    ensures o in Orbits
    ensures index < |Orbits| ==> o == Orbits[index]
  {
    Orbits[index % |Orbits|]
  }

  /** The card six places on gets the same preset. */
  lemma OrbitPeriodic(index: nat)
    ensures OrbitFor(index + |Orbits|) == OrbitFor(index)
  {
  }

  /** The three messages the page opens with. */
  const InitialMessages: seq<Message> := [
    Message("seed-1", Nexus,
      "Bienvenida al Atrio Neuronal. Las memorias sintéticas orbitan esperando la próxima conexión humana.",
      1, "00:01"),
    Message("seed-2", Usuario,
      "Quiero una lluvia de ideas para diseñar una experiencia multisensorial que sorprenda a toda la galaxia.",
      0, "00:18"),
    Message("seed-3", Nexus,
      "Proyectemos: nubes hápticas, sonido binaural modulable y luz líquida que reacciona a la intención humana.",
      2, "00:27")
  ]
}
