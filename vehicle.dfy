/** The vehicle record of Vehicle.py, reduced to the fields the containers
    and sorts look at. */
module Vehicles {

  /** A vehicle: its id, the labels of its location and destination, its
      distance to the destination and its battery level in percent. */
  datatype Vehicle = Vehicle(
    vehicleID: string,
    location: string,
    dest: string,
    distDest: int,
    battery: int)
}
