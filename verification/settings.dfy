/** The tunable cost and rate parameters (src/SimulationSettings.cs). */
module Settings {

  datatype SimulationSettings = SimulationSettings(
    jumpmanIdleCost: real,
    jumpmanSpeedCost: real,
    jumpmanSizeCost: real,
    jumpmanMutationRate: real,
    foodSpawnRate: real)

  /** SimulationSettings.DefaultSettings. */
  const DefaultSettings: SimulationSettings := SimulationSettings(5.0, 1.0, 2.0, 0.01, 0.01)

  /** The defaults: idle cost 5, speed cost 1, size exponent 2, and a 1%
      mutation rate and food spawn rate. */
  lemma DefaultSettingsValues()
    ensures DefaultSettings.jumpmanIdleCost == 5.0
    ensures DefaultSettings.jumpmanSpeedCost == 1.0
    ensures DefaultSettings.jumpmanSizeCost == 2.0
    ensures DefaultSettings.jumpmanMutationRate == 0.01
    ensures DefaultSettings.foodSpawnRate == 0.01
  {
  }
}
