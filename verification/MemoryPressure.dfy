/** src/hardware/pressure.rs: the pressure level both admission checks consult. */
module MemoryPressure {

  datatype MemoryPressureLevel = Normal | Warn | Critical
}
