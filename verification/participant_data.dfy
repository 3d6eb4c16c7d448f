/** The seven-field demographic record the setup form hands to the
    experiment manager. The participant ID is not part of it: the manager
    generates it. */
module ParticipantRecord {

  datatype ParticipantData = ParticipantData(
    age: int,
    yearsEducation: int,
    gender: string,
    handedness: string,
    ethnicity: string,
    alcoholFreq: string,
    cannabisFreq: string)
}
